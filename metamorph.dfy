/** The engine as a program sees it: one shared library state (the host, the
    construction counter, the comment cache and the document) and region
    objects whose methods edit the document between their two markers. Each
    method is proved against the function of the `Regions` module that
    describes the same operation; the branch is chosen once, by whether the
    host supports ranges. */
module Engine {
  import opened Outcomes
  import opened Dom
  import opened Markers
  import opened Fragments
  import opened Locators
  import opened Edits
  import opened Regions

  /** `range.createContextualFragment(html)`: the host's own contextual parser,
      or the polyfill that falls back on the wrapping-table container. */
  method CreateContextualFragment(h: Host, parent: NodeKind, html: string) returns (r: Result<seq<Node>>)
    ensures r == ContextFragment(h, parent, html)
  {
    if h.config.nativeContextualFragment {
      r := Ok(h.parseInContext(parent, html));
    } else {
      r := FragmentFor(h, parent, html);
    }
  }

  /** The state the engine's closure shares between all regions. */
  class Library {
    const host: Host
    var guid: nat
    var markers: Cache
    var doc: Doc

    ghost predicate Valid()
      reads this
    {
      DocValid(doc)
    }

    constructor (host: Host, doc: Doc)
      requires DocValid(doc)
      ensures this.host == host && this.doc == doc && guid == 0 && markers == map[]
      ensures Valid()
    {
      this.host := host;
      this.doc := doc;
      guid := 0;
      markers := map[];
    }

    /** `getMarker` with ranges: on a miss, the tree walk records every comment
        of the body under its text; then the cached node counts only if the body
        still contains it. */
    method GetRangeMarker(name: string) returns (r: Option<Path>)
      modifies this
      ensures (r, markers) == RangeMarker(old(doc), old(markers), name)
      ensures doc == old(doc) && guid == old(guid)
    {
      if name !in markers {
        var comments := CommentPaths(doc);
        var k := 0;
        while k < |comments|
          invariant 0 <= k <= |comments|
          invariant doc == old(doc) && guid == old(guid)
          invariant Record(markers, doc, comments[k..]) == Record(old(markers), doc, comments)
        {
          var comment := At(Tree(doc), comments[k]);
          assert comments[k..][1..] == comments[k + 1..];
          markers := markers[CommentText(comment.kind) := comment.uid];
          k := k + 1;
        }
      }
      if name in markers {
        r := PathOfUid(doc, markers[name]);
      } else {
        r := None;
      }
    }

    /** The legacy `htmlFunc` once both markers share a parent: the siblings
        after the start marker removed, then the fragment for the parent
        inserted. */
    method SiblingHtmlFunc(s: Path, e: Path, html: string, outerToo: bool) returns (o: Outcome)
      requires InBody(doc, s) && InBody(doc, e) && Parent(s) == Parent(e)
      modifies this
      ensures (doc, o) == SiblingHtml(host, old(doc), s, e, html, outerToo)
      ensures markers == old(markers) && guid == old(guid)
    {
      ParentOf(doc, s);
      ParentOf(doc, e);
      var p := Parent(e);
      var at := RemoveSiblings(p, Last(s), Last(e), outerToo);
      var frag := FragmentFor(host, At(Tree(doc), p).kind, html);
      if frag.Fail? {
        return Thrown(frag.error);
      }
      doc := Splice(doc, p, at, at, frag.value);
      o := Done;
    }

    /** The removal loop of the legacy `htmlFunc`, on the children of the node
        at `p` with the start marker at `i` and the end marker at `j`: the node
        after the start marker is removed, one at a time, until the end marker
        is met (and removed too when `outerToo`) or no node is left. The result
        is the index the new nodes go in at: before the end marker, before the
        node after it, or at the end of the list when the end marker was never
        met. */
    method RemoveSiblings(p: Path, i: nat, j: nat, outerToo: bool) returns (at: nat)
      requires |p| >= 1 && ValidPath(Tree(doc), p)
      requires i < |At(Tree(doc), p).children| && j < |At(Tree(doc), p).children|
      modifies this
      ensures var c := LegacyCut(|At(Tree(old(doc)), p).children|, i, j, outerToo);
        at == c.at && doc == Delete(old(doc), p, c)
      ensures markers == old(markers) && guid == old(guid)
    {
      ghost var d1 := doc;
      ghost var kids := At(Tree(d1), p).children;
      assert kids[..i + 1] + kids[i + 1..] == kids;
      SetKidsUnchanged(d1, p);
      // `k` is the original index of the start marker's current next sibling.
      var k := i + 1;
      at := j;
      while i + 1 < |At(Tree(doc), p).children|
        invariant i + 1 <= k <= |kids| && (j > i ==> k <= j)
        invariant doc == SetKids(d1, p, kids[..i + 1] + kids[k..])
        invariant markers == old(markers) && guid == old(guid)
        decreases |kids| - k
      {
        var last := k == j;
        if last && !outerToo {
          at := i + 1;
          break;
        }
        ghost var current := kids[..i + 1] + kids[k..];
        AtChild(Tree(doc), p, i + 1);
        assert Parent(p + [i + 1]) == p && Last(p + [i + 1]) == i + 1;
        doc := Remove(doc, p + [i + 1]);
        assert Without(current, i + 1) == kids[..i + 1] + kids[k + 1..];
        SetKidsTwice(d1, p, current, Without(current, i + 1));
        k := k + 1;
        if last {
          at := i + 1;
          break;
        }
      }
      assert Cut(i + 1, k, at) == LegacyCut(|kids|, i, j, outerToo);
    }

    /** The range `htmlFunc` on a resolved range: its contents deleted, then the
        contextual fragment inserted where the range now sits. */
    method RangeHtmlAtFunc(s: Path, e: Path, html: string, outerToo: bool) returns (o: Outcome)
      requires InBody(doc, s) && InBody(doc, e) && Parent(s) == Parent(e)
      modifies this
      ensures (doc, o) == RangeHtmlAt(host, old(doc), s, e, html, outerToo)
      ensures markers == old(markers) && guid == old(guid)
    {
      ParentOf(doc, s);
      ParentOf(doc, e);
      var p := Parent(e);
      var cut := RangeCut(Last(s), Last(e), outerToo);
      var kind := At(Tree(doc), p).kind;
      doc := Delete(doc, p, cut);
      var frag := CreateContextualFragment(host, kind, html);
      if frag.Fail? {
        return Thrown(frag.error);
      }
      doc := Splice(doc, p, cut.at, cut.at, frag.value);
      o := Done;
    }

    /** The last two steps of the legacy `removeFunc`: each marker node taken
        out of its parent, start first; a node with no parent is a type
        error. */
    method RemoveMarkerNodesFunc(su: nat, eu: nat) returns (o: Outcome)
      modifies this
      ensures (doc, o) == RemoveMarkerNodes(old(doc), su, eu)
      ensures markers == old(markers) && guid == old(guid)
    {
      var ps := PathOfUid(doc, su);
      if ps.None? {
        return Thrown(TypeError);
      }
      doc := Remove(doc, ps.value);
      var pe := PathOfUid(doc, eu);
      if pe.None? {
        return Thrown(TypeError);
      }
      doc := Remove(doc, pe.value);
      o := Done;
    }

    /** `parent.insertBefore(fragment, ref)` with `ref` the child at index `k`
        (or none), the fragment having been built first. */
    method InsertFragment(p: Path, k: nat, frag: Result<seq<Node>>) returns (o: Outcome)
      requires ValidPath(Tree(doc), p) && k <= |At(Tree(doc), p).children|
      modifies this
      ensures (doc, o) == InsertAt(old(doc), p, k, frag)
      ensures markers == old(markers) && guid == old(guid)
    {
      if frag.Fail? {
        return Thrown(frag.error);
      }
      doc := Splice(doc, p, k, k, frag.value);
      o := Done;
    }
  }

  /** One region of the document, delimited by a start and an end marker. */
  class Metamorph {
    const lib: Library
    const start: string
    const end: string
    var innerHTML: string

    /** `Metamorph(html)`: the content is kept, and the markers are named after
        the next value of the shared counter. */
    constructor (lib: Library, html: string)
      modifies lib
      ensures this.lib == lib && innerHTML == html
      ensures start == StartId(old(lib.guid)) && end == EndId(old(lib.guid))
      ensures lib.guid == old(lib.guid) + 1
      ensures lib.doc == old(lib.doc) && lib.markers == old(lib.markers)
    {
      var myGuid := lib.guid;
      lib.guid := lib.guid + 1;
      this.lib := lib;
      innerHTML := html;
      start := StartId(myGuid);
      end := EndId(myGuid);
    }

    /** The markup a template embeds for this region. */
    function OuterHTML(): string
      reads this
    {
      Markers.OuterHTML(StrategyFor(lib.host.config), start, end, innerHTML)
    }

    /** The branch-independent invariant every edit keeps; with ranges, the
        region's markers must be siblings when they resolve. */
    ghost predicate Editable()
      reads this, lib
    {
      lib.Valid() && (lib.host.config.supportsRange ==> SameParentIfFound(lib.doc, lib.markers, start, end))
    }

    /** `html()` with no argument: the content last set, and no edit. */
    method GetHtml() returns (s: string)
      ensures s == innerHTML
    {
      s := innerHTML;
    }

    /** `html(s)`: the content between the markers replaced by `s`; the stored
        content changes only when the edit finishes. */
    method SetHtml(html: string) returns (o: Outcome)
      requires Editable()
      modifies this, lib
      ensures lib.Valid() && lib.guid == old(lib.guid)
      ensures !lib.host.config.supportsRange ==>
        (lib.doc, o) == LegacyHtml(lib.host, old(lib.doc), start, end, html, false) && lib.markers == old(lib.markers)
      ensures lib.host.config.supportsRange ==>
        (lib.doc, lib.markers, o) == RangeHtml(lib.host, old(lib.doc), old(lib.markers), start, end, html, false)
      ensures innerHTML == if o == Done then html else old(innerHTML)
    {
      o := HtmlFunc(html, false);
      if o == Done {
        innerHTML := html;
      }
    }

    /** `replaceWith(s)`: the content and the end marker replaced by `s`; the
        stored content is left as it was. */
    method ReplaceWith(html: string) returns (o: Outcome)
      requires Editable()
      modifies lib
      ensures lib.Valid() && lib.guid == old(lib.guid) && innerHTML == old(innerHTML)
      ensures !lib.host.config.supportsRange ==>
        (lib.doc, o) == LegacyHtml(lib.host, old(lib.doc), start, end, html, true) && lib.markers == old(lib.markers)
      ensures lib.host.config.supportsRange ==>
        (lib.doc, lib.markers, o) == RangeHtml(lib.host, old(lib.doc), old(lib.markers), start, end, html, true)
    {
      o := HtmlFunc(html, true);
    }

    /** `htmlFunc` of whichever branch the host selects. */
    method HtmlFunc(html: string, outerToo: bool) returns (o: Outcome)
      requires Editable()
      modifies lib
      ensures lib.Valid() && lib.guid == old(lib.guid)
      ensures !lib.host.config.supportsRange ==>
        (lib.doc, o) == LegacyHtml(lib.host, old(lib.doc), start, end, html, outerToo) && lib.markers == old(lib.markers)
      ensures lib.host.config.supportsRange ==>
        (lib.doc, lib.markers, o) == RangeHtml(lib.host, old(lib.doc), old(lib.markers), start, end, html, outerToo)
    {
      if lib.host.config.supportsRange {
        RangeHtmlValid(lib.host, lib.doc, lib.markers, start, end, html, outerToo);
        o := RangeHtmlFunc(html, outerToo);
      } else {
        LegacyHtmlValid(lib.host, lib.doc, start, end, html, outerToo);
        o := LegacyHtmlFunc(html, outerToo);
      }
    }

    /** The legacy `htmlFunc`: both markers found (else not found), put under
        one parent (a hierarchy error otherwise), then the edit between them. */
    method LegacyHtmlFunc(html: string, outerToo: bool) returns (o: Outcome)
      modifies lib
      ensures (lib.doc, o) == LegacyHtml(lib.host, old(lib.doc), start, end, html, outerToo)
      ensures lib.markers == old(lib.markers) && lib.guid == old(lib.guid)
    {
      var s := GetLegacyMarker(lib.doc, start);
      var e := GetLegacyMarker(lib.doc, end);
      if s.None? || e.None? {
        return Thrown(NotFound);
      }
      LegacyHtmlFixed(lib.host, lib.doc, start, end, html, outerToo);
      var fixed := FixParentage(lib.doc, s.value, e.value);
      if fixed.Fail? {
        return Thrown(fixed.error);
      }
      lib.doc := fixed.value.0;
      o := lib.SiblingHtmlFunc(fixed.value.1, fixed.value.2, html, outerToo);
    }

    /** The range `htmlFunc`: the range resolved through the cache (else not
        found), then the edit. */
    method RangeHtmlFunc(html: string, outerToo: bool) returns (o: Outcome)
      requires SameParentIfFound(lib.doc, lib.markers, start, end)
      modifies lib
      ensures (lib.doc, lib.markers, o) == RangeHtml(lib.host, old(lib.doc), old(lib.markers), start, end, html, outerToo)
      ensures lib.guid == old(lib.guid)
    {
      var s := lib.GetRangeMarker(start);
      var e := lib.GetRangeMarker(end);
      if s.None? || e.None? {
        return Thrown(NotFound);
      }
      o := lib.RangeHtmlAtFunc(s.value, e.value, html, outerToo);
    }

    /** `remove()`: the markers and everything between them taken out of the
        document. Without ranges this goes through `html('')`, which also clears
        the stored content. */
    method Remove() returns (o: Outcome)
      requires Editable()
      modifies this, lib
      ensures lib.Valid() && lib.guid == old(lib.guid)
      ensures !lib.host.config.supportsRange ==>
        (lib.doc, o, innerHTML) == LegacyRemove(lib.host, old(lib.doc), start, end, old(innerHTML))
        && lib.markers == old(lib.markers)
      ensures lib.host.config.supportsRange ==>
        (lib.doc, lib.markers, o) == RangeRemove(old(lib.doc), old(lib.markers), start, end)
        && innerHTML == old(innerHTML)
    {
      if lib.host.config.supportsRange {
        RangeRemoveValid(lib.doc, lib.markers, start, end);
        o := RangeRemoveFunc();
      } else {
        LegacyRemoveValid(lib.host, lib.doc, start, end, innerHTML);
        o := LegacyRemoveFunc();
      }
    }

    /** The range `removeFunc`: the range from before the start marker to after
        the end marker resolved (else not found), then its contents deleted. */
    method RangeRemoveFunc() returns (o: Outcome)
      requires SameParentIfFound(lib.doc, lib.markers, start, end)
      modifies lib
      ensures (lib.doc, lib.markers, o) == RangeRemove(old(lib.doc), old(lib.markers), start, end)
      ensures lib.guid == old(lib.guid)
    {
      var s := lib.GetRangeMarker(start);
      var e := lib.GetRangeMarker(end);
      if s.None? || e.None? {
        return Thrown(NotFound);
      }
      ParentOf(lib.doc, s.value);
      ParentOf(lib.doc, e.value);
      lib.doc := Delete(lib.doc, Parent(e.value), RangeCut(Last(s.value), Last(e.value), true));
      o := Done;
    }

    /** The legacy `removeFunc`: both markers found (else not found), the
        content cleared with `html('')`, then both marker nodes removed. */
    method LegacyRemoveFunc() returns (o: Outcome)
      requires lib.Valid() && !lib.host.config.supportsRange
      modifies this, lib
      ensures (lib.doc, o, innerHTML) == LegacyRemove(lib.host, old(lib.doc), start, end, old(innerHTML))
      ensures lib.markers == old(lib.markers) && lib.guid == old(lib.guid)
    {
      var s := GetLegacyMarker(lib.doc, start);
      var e := GetLegacyMarker(lib.doc, end);
      if s.None? || e.None? {
        return Thrown(NotFound);
      }
      var su, eu := At(Tree(lib.doc), s.value).uid, At(Tree(lib.doc), e.value).uid;
      o := SetHtml("");
      if o.Thrown? {
        return;
      }
      o := lib.RemoveMarkerNodesFunc(su, eu);
    }

    /** `appendTo(node)`: the region's outer markup, as nodes for the target,
        appended to the target's children. */
    method AppendTo(target: Path) returns (o: Outcome)
      requires lib.Valid() && ValidPath(Tree(lib.doc), target)
      modifies lib
      ensures lib.Valid() && lib.guid == old(lib.guid) && lib.markers == old(lib.markers)
      ensures !lib.host.config.supportsRange ==>
        (lib.doc, o) == LegacyAppendTo(lib.host, old(lib.doc), target, OuterHTML())
      ensures lib.host.config.supportsRange ==>
        (lib.doc, o) == RangeAppendTo(lib.host, old(lib.doc), target, OuterHTML())
    {
      var outer := OuterHTML();
      var d := lib.doc;
      AppendToValid(lib.host, d, target, outer);
      var node := At(Tree(d), target);
      var frag;
      if lib.host.config.supportsRange {
        frag := CreateContextualFragment(lib.host, node.kind, outer);
        if frag.Ok? && !node.kind.Element? {
          return Thrown(HierarchyRequest);
        }
        assert RangeAppendTo(lib.host, d, target, outer) == InsertAt(d, target, |node.children|, frag);
      } else {
        frag := FragmentFor(lib.host, node.kind, outer);
        assert LegacyAppendTo(lib.host, d, target, outer) == InsertAt(d, target, |node.children|, frag);
      }
      o := lib.InsertFragment(target, |node.children|, frag);
    }

    /** `after(s)`: the nodes of `s` inserted right after the end marker. */
    method After(html: string) returns (o: Outcome)
      requires lib.Valid()
      modifies lib
      ensures lib.Valid() && lib.guid == old(lib.guid)
      ensures !lib.host.config.supportsRange ==>
        (lib.doc, o) == LegacyInsertAfter(lib.host, old(lib.doc), end, html) && lib.markers == old(lib.markers)
      ensures lib.host.config.supportsRange ==>
        (lib.doc, lib.markers, o) == RangeInsertAfter(lib.host, old(lib.doc), old(lib.markers), end, html)
    {
      o := InsertAfterMarker(end, html);
    }

    /** `prepend(s)`: the nodes of `s` inserted right after the start marker. */
    method Prepend(html: string) returns (o: Outcome)
      requires lib.Valid()
      modifies lib
      ensures lib.Valid() && lib.guid == old(lib.guid)
      ensures !lib.host.config.supportsRange ==>
        (lib.doc, o) == LegacyInsertAfter(lib.host, old(lib.doc), start, html) && lib.markers == old(lib.markers)
      ensures lib.host.config.supportsRange ==>
        (lib.doc, lib.markers, o) == RangeInsertAfter(lib.host, old(lib.doc), old(lib.markers), start, html)
    {
      o := InsertAfterMarker(start, html);
    }

    /** `afterFunc` and `prependFunc`, which differ only in the marker. */
    method InsertAfterMarker(name: string, html: string) returns (o: Outcome)
      requires lib.Valid()
      modifies lib
      ensures lib.Valid() && lib.guid == old(lib.guid)
      ensures !lib.host.config.supportsRange ==>
        (lib.doc, o) == LegacyInsertAfter(lib.host, old(lib.doc), name, html) && lib.markers == old(lib.markers)
      ensures lib.host.config.supportsRange ==>
        (lib.doc, lib.markers, o) == RangeInsertAfter(lib.host, old(lib.doc), old(lib.markers), name, html)
    {
      if lib.host.config.supportsRange {
        RangeInsertAfterValid(lib.host, lib.doc, lib.markers, name, html);
        o := RangeInsertAfterFunc(name, html);
      } else {
        LegacyInsertAfterValid(lib.host, lib.doc, name, html);
        o := LegacyInsertAfterFunc(name, html);
      }
    }

    /** Without ranges: the marker found by id (or in a `select`), then the
        fragment built for its parent inserted before its next sibling. */
    method LegacyInsertAfterFunc(name: string, html: string) returns (o: Outcome)
      modifies lib
      ensures (lib.doc, o) == LegacyInsertAfter(lib.host, old(lib.doc), name, html)
      ensures lib.markers == old(lib.markers) && lib.guid == old(lib.guid)
    {
      var m := GetLegacyMarker(lib.doc, name);
      if m.None? {
        return Thrown(NotFound);
      }
      ParentOf(lib.doc, m.value);
      var frag := FragmentFor(lib.host, At(Tree(lib.doc), Parent(m.value)).kind, html);
      o := lib.InsertFragment(Parent(m.value), Last(m.value) + 1, frag);
    }

    /** With ranges: the marker found through the cache, then a collapsed
        range after it receiving the contextual fragment. */
    method RangeInsertAfterFunc(name: string, html: string) returns (o: Outcome)
      modifies lib
      ensures (lib.doc, lib.markers, o) == RangeInsertAfter(lib.host, old(lib.doc), old(lib.markers), name, html)
      ensures lib.guid == old(lib.guid)
    {
      var m := lib.GetRangeMarker(name);
      if m.None? {
        return Thrown(NotFound);
      }
      ParentOf(lib.doc, m.value);
      var frag := CreateContextualFragment(lib.host, At(Tree(lib.doc), Parent(m.value)).kind, html);
      o := lib.InsertFragment(Parent(m.value), Last(m.value) + 1, frag);
    }

    /** `isRemoved()`: whether either marker fails to resolve. With ranges, the
        lookups may fill the cache; nothing else changes. */
    method IsRemoved() returns (b: bool)
      modifies lib
      ensures lib.doc == old(lib.doc) && lib.guid == old(lib.guid)
      ensures !lib.host.config.supportsRange ==>
        b == LegacyIsRemoved(lib.doc, start, end) && lib.markers == old(lib.markers)
      ensures lib.host.config.supportsRange ==>
        (b, lib.markers) == RangeIsRemoved(old(lib.doc), old(lib.markers), start, end)
    {
      if lib.host.config.supportsRange {
        var s := lib.GetRangeMarker(start);
        var e := lib.GetRangeMarker(end);
        b := s.None? || e.None?;
      } else {
        var s := GetLegacyMarker(lib.doc, start);
        var e := GetLegacyMarker(lib.doc, end);
        b := s.None? || e.None?;
      }
    }
  }
}
