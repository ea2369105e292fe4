/** What each region operation does to the document, as functions of the
    document (and, with ranges, of the marker cache). There are two families,
    one per engine branch:
    - without ranges: markers resolved by id, the content between them removed
      sibling by sibling, the fragment built by the wrapping table;
    - with ranges: markers resolved through the comment cache, the content
      deleted as one run of siblings, the fragment built by the host's
      contextual parser (or the wrapping table where the host lacks it).
    Every operation that throws keeps the edits it made before the throw. */
module Regions {
  import opened Outcomes
  import opened Dom
  import opened Fragments
  import opened Locators
  import opened Edits

  // ---------------------------------------------------------------------------
  // Cutting one child list

  /** An edit of one child list: children `from..to` are deleted, then the new
      nodes go in at index `at` of what is left. */
  datatype Cut = Cut(from: nat, to: nat, at: nat)

  predicate Fits(c: Cut, n: nat) {
    c.at <= c.from <= c.to <= n
  }

  function Min(a: nat, b: nat): nat {
    if a <= b then a else b
  }

  /** The cut of the legacy loop, with the start marker at `i` and the end
      marker at `j` among `n` siblings. The loop removes the siblings after the
      start marker up to the end marker (and the end marker too when
      `outerToo`), then inserts before `end`: the end marker, the node after it,
      or nothing (append). An end marker that is not after the start marker is
      never reached: every sibling after the start marker goes, and the new
      nodes go in before the end marker. */
  function LegacyCut(n: nat, i: nat, j: nat, outerToo: bool): (c: Cut)
    requires i < n && j < n
    ensures Fits(c, n) && c.from == i + 1
  {
    if j <= i then Cut(i + 1, n, j)
    else if outerToo then Cut(i + 1, j + 1, i + 1)
    else Cut(i + 1, j, i + 1)
  }

  /** The cut of a range from after the start marker to before the end marker
      (or from before the start marker to after the end marker). A range whose
      end would come before its start collapses onto its end. */
  function RangeCut(i: nat, j: nat, outerToo: bool): (c: Cut)
    ensures c.at == c.from <= c.to
    ensures outerToo ==> c.to == j + 1
    ensures !outerToo ==> c.to == j
  {
    if outerToo then Cut(Min(i, j + 1), j + 1, Min(i, j + 1))
    else Cut(Min(i + 1, j), j, Min(i + 1, j))
  }

  /** The deletion half of a cut. */
  function Delete(d: Doc, p: Path, c: Cut): (r: Doc)
    requires ValidPath(Tree(d), p) && Fits(c, |At(Tree(d), p).children|)
    ensures ValidPath(Tree(r), p) && r.nextUid == d.nextUid
    ensures var kids := At(Tree(d), p).children;
      At(Tree(r), p) == At(Tree(d), p).(children := kids[..c.from] + kids[c.to..])
  {
    var kids := At(Tree(d), p).children;
    SetKids(d, p, kids[..c.from] + kids[c.to..])
  }

  /** A cut carried out: the deletion, then the fragment (which the host may
      refuse to build, after the deletion) inserted with fresh identities. */
  function Patch(d: Doc, p: Path, c: Cut, frag: Result<seq<Node>>): (r: (Doc, Outcome))
    requires ValidPath(Tree(d), p) && Fits(c, |At(Tree(d), p).children|)
    ensures ValidPath(Tree(r.0), p) && At(Tree(r.0), p).kind == At(Tree(d), p).kind
    ensures r.1 == (if frag.Ok? then Done else Thrown(frag.error))
    ensures frag.Fail? ==> r.0 == Delete(d, p, c)
    ensures frag.Ok? ==>
      var kids := At(Tree(d), p).children;
      var inserted := Renumber(frag.value, d.nextUid).0;
      && At(Tree(r.0), p).children == kids[..c.at] + inserted + kids[c.at..c.from] + kids[c.to..]
      && Anon(inserted) == Anon(frag.value)
  {
    var d1 := Delete(d, p, c);
    if frag.Fail? then (d1, Thrown(frag.error))
    else
      var kids := At(Tree(d), p).children;
      var left := kids[..c.from] + kids[c.to..];
      assert left[..c.at] == kids[..c.at];
      assert left[c.at..] == kids[c.at..c.from] + kids[c.to..];
      (Splice(d1, p, c.at, c.at, frag.value), Done)
  }

  /** A cut keeps a document well formed, whatever the fragment. */
  lemma PatchValid(d: Doc, p: Path, c: Cut, frag: Result<seq<Node>>)
    requires DocValid(d) && ValidPath(Tree(d), p) && Fits(c, |At(Tree(d), p).children|)
    ensures DocValid(Patch(d, p, c, frag).0)
  {
    DeleteRunValid(d, p, c.from, c.to);
    if frag.Ok? {
      SpliceValid(Delete(d, p, c), p, c.at, c.at, frag.value);
    }
  }

  /** A cut changes nothing outside the edited child list: a node that is not
      strictly below the parent keeps its identity and kind, and one that is
      not on the parent's line of ancestors is unchanged. */
  lemma PatchElsewhere(d: Doc, p: Path, c: Cut, frag: Result<seq<Node>>, q: Path)
    requires ValidPath(Tree(d), p) && Fits(c, |At(Tree(d), p).children|)
    requires ValidPath(Tree(d), q) && !(IsPrefix(p, q) && |p| < |q|)
    ensures var r := Patch(d, p, c, frag).0;
      && ValidPath(Tree(r), q)
      && At(Tree(r), q).uid == At(Tree(d), q).uid && At(Tree(r), q).kind == At(Tree(d), q).kind
      && (!IsPrefix(q, p) ==> At(Tree(r), q) == At(Tree(d), q))
  {
    var kids := At(Tree(d), p).children;
    var d1 := Delete(d, p, c);
    SetKidsAtElsewhere(Tree(d), p, kids[..c.from] + kids[c.to..], q);
    if frag.Ok? {
      var kids1 := At(Tree(d1), p).children;
      var inserted := Renumber(frag.value, d1.nextUid).0;
      SetKidsAtElsewhere(Tree(d1), p, kids1[..c.at] + inserted + kids1[c.at..], q);
    }
  }

  /** The wrapping-table fragment fails only with a type error. */
  lemma FragmentFailsWithTypeError(h: Host, k: NodeKind, html: string)
    ensures Fragment(h, k, html).Fail? ==> Fragment(h, k, html).error == TypeError
  {
  }

  /** New nodes inserted at index `k` of the children at `p`; a fragment the
      host could not build leaves the document as it is. */
  function InsertAt(d: Doc, p: Path, k: nat, frag: Result<seq<Node>>): (r: (Doc, Outcome))
    requires ValidPath(Tree(d), p) && k <= |At(Tree(d), p).children|
    ensures r.1 == (if frag.Ok? then Done else Thrown(frag.error))
    ensures frag.Fail? ==> r.0 == d
    ensures frag.Ok? ==>
      var kids := At(Tree(d), p).children;
      var inserted := Renumber(frag.value, d.nextUid).0;
      && ValidPath(Tree(r.0), p)
      && At(Tree(r.0), p).children == kids[..k] + inserted + kids[k..]
      && Anon(inserted) == Anon(frag.value)
  {
    if frag.Fail? then (d, Thrown(frag.error)) else (Splice(d, p, k, k, frag.value), Done)
  }

  /** An insertion keeps a document well formed. */
  lemma InsertAtValid(d: Doc, p: Path, k: nat, frag: Result<seq<Node>>)
    requires DocValid(d) && ValidPath(Tree(d), p) && k <= |At(Tree(d), p).children|
    ensures DocValid(InsertAt(d, p, k, frag).0)
  {
    if frag.Ok? {
      SpliceValid(d, p, k, k, frag.value);
    }
  }

  // ---------------------------------------------------------------------------
  // Without ranges

  /** The legacy `htmlFunc` from the point where both markers share a parent:
      the loop's cut, with the fragment for that parent. */
  function SiblingHtml(h: Host, d: Doc, s: Path, e: Path, html: string, outerToo: bool): (r: (Doc, Outcome))
    requires InBody(d, s) && InBody(d, e) && Parent(s) == Parent(e)
    ensures r.1 == Done || r.1 == Thrown(TypeError)
  {
    ParentOf(d, s);
    ParentOf(d, e);
    FragmentFailsWithTypeError(h, ParentNode(d, e).kind, html);
    var n := |ParentNode(d, e).children|;
    Patch(d, Parent(e), LegacyCut(n, Last(s), Last(e), outerToo), Fragment(h, ParentNode(d, e).kind, html))
  }

  /** The legacy `htmlFunc` on resolved markers: `fixParentage`, then the rest. */
  function LegacyHtmlAt(h: Host, d: Doc, s: Path, e: Path, html: string, outerToo: bool): (r: (Doc, Outcome))
    requires InBody(d, s) && InBody(d, e)
    ensures r.1 != Thrown(NotFound)
  {
    var fixed := FixParentage(d, s, e);
    if fixed.Fail? then (d, Thrown(fixed.error))
    else SiblingHtml(h, fixed.value.0, fixed.value.1, fixed.value.2, html, outerToo)
  }

  /** `htmlFunc` without ranges: both markers resolved (else not found), put
      under one parent, the content between them (and the end marker when
      `outerToo`) removed, and the fragment for the parent inserted before the
      end marker. */
  function LegacyHtml(h: Host, d: Doc, start: string, end: string, html: string, outerToo: bool): (r: (Doc, Outcome))
    ensures r.1 == Thrown(NotFound) <==> LegacyMarker(d, start).None? || LegacyMarker(d, end).None?
    ensures r.1 == Thrown(NotFound) ==> r.0 == d
  {
    var s := LegacyMarker(d, start);
    var e := LegacyMarker(d, end);
    if s.None? || e.None? then (d, Thrown(NotFound))
    else LegacyHtmlAt(h, d, s.value, e.value, html, outerToo)
  }

  /** What a legacy `html(s)` or `replaceWith(s)` leaves between two sibling
      markers, the start before the end, when the host can build the fragment:
      the children up to and including the start marker, then the fragment's
      nodes in order, then the end marker and everything after it (`html`) or
      everything after the end marker (`replaceWith`, which keeps the start
      marker). Nothing outside the parent's child list changes. */
  lemma SiblingHtmlBetween(h: Host, d: Doc, s: Path, e: Path, html: string, outerToo: bool)
    requires InBody(d, s) && InBody(d, e) && Parent(s) == Parent(e) && Last(s) < Last(e)
    requires Fragment(h, ParentNode(d, e).kind, html).Ok?
    ensures var kids := ParentNode(d, e).children;
      var frag := Fragment(h, ParentNode(d, e).kind, html).value;
      var r := SiblingHtml(h, d, s, e, html, outerToo);
      && r.1 == Done
      && ValidPath(Tree(r.0), Parent(e))
      && kids[Last(s)] == At(Tree(d), s) && kids[Last(e)] == At(Tree(d), e)
      && At(Tree(r.0), Parent(e)).children
         == kids[..Last(s) + 1] + Renumber(frag, d.nextUid).0
            + (if outerToo then kids[Last(e) + 1..] else kids[Last(e)..])
  {
    ParentOf(d, s);
    ParentOf(d, e);
    SiblingHtmlIsPatch(h, d, s, e, html, outerToo);
    var c := Cut(Last(s) + 1, if outerToo then Last(e) + 1 else Last(e), Last(s) + 1);
    PatchInserts(d, Parent(e), c, Fragment(h, ParentNode(d, e).kind, html));
  }

  /** On siblings, start first, the legacy cut runs from after the start
      marker up to the end marker, or through it for `replaceWith`. */
  lemma SiblingHtmlIsPatch(h: Host, d: Doc, s: Path, e: Path, html: string, outerToo: bool)
    requires InBody(d, s) && InBody(d, e) && Parent(s) == Parent(e) && Last(s) < Last(e)
    ensures var c := Cut(Last(s) + 1, if outerToo then Last(e) + 1 else Last(e), Last(s) + 1);
      && Fits(c, |ParentNode(d, e).children|)
      && SiblingHtml(h, d, s, e, html, outerToo) == Patch(d, Parent(e), c, Fragment(h, ParentNode(d, e).kind, html))
  {
    ParentOf(d, s);
    ParentOf(d, e);
  }

  /** A cut that removes a run and inserts where the run began leaves the
      children before the run, the renumbered fragment, then the children
      after the run. */
  lemma PatchInserts(d: Doc, p: Path, c: Cut, frag: Result<seq<Node>>)
    requires ValidPath(Tree(d), p) && Fits(c, |At(Tree(d), p).children|) && c.at == c.from && frag.Ok?
    ensures var kids := At(Tree(d), p).children;
      var r := Patch(d, p, c, frag);
      && r.1 == Done && ValidPath(Tree(r.0), p)
      && At(Tree(r.0), p).children == kids[..c.from] + Renumber(frag.value, d.nextUid).0 + kids[c.to..]
  {
    var kids := At(Tree(d), p).children;
    assert kids[c.at..c.from] == [];
  }

  /** Once both markers resolve, `html` works on the positions `fixParentage`
      leaves: the same start node, the end node's identity and kind, one
      parent, and, when the markers had different parents, the start node first
      among the end node's siblings, hence before the end node. */
  lemma LegacyHtmlFixed(h: Host, d: Doc, start: string, end: string, html: string, outerToo: bool)
    requires LegacyMarker(d, start).Some? && LegacyMarker(d, end).Some?
    ensures var s := LegacyMarker(d, start).value;
      var e := LegacyMarker(d, end).value;
      var fixed := FixParentage(d, s, e);
      && (fixed.Fail? ==> LegacyHtml(h, d, start, end, html, outerToo) == (d, Thrown(HierarchyRequest)))
      && (fixed.Ok? ==>
            var (d1, s1, e1) := fixed.value;
            && LegacyHtml(h, d, start, end, html, outerToo) == SiblingHtml(h, d1, s1, e1, html, outerToo)
            && At(Tree(d1), s1) == At(Tree(d), s) && At(Tree(d1), e1).uid == At(Tree(d), e).uid
            && (Parent(s) != Parent(e) ==> Last(s1) < Last(e1)))
  {
  }

  /** The legacy `html(s)` and `replaceWith(s)` on markers that are already
      siblings, the start before the end, when the host can build the
      fragment: everything up to and including the start marker stays, the
      fragment's nodes follow in order, then the end marker and what follows it
      (`html`) or only what follows it (`replaceWith`). */
  lemma LegacyHtmlSiblings(h: Host, d: Doc, start: string, end: string, html: string, outerToo: bool, s: Path, e: Path)
    requires LegacyMarker(d, start) == Some(s) && LegacyMarker(d, end) == Some(e)
    requires Parent(s) == Parent(e) && Last(s) < Last(e)
    requires Fragment(h, ParentNode(d, e).kind, html).Ok?
    ensures var kids := ParentNode(d, e).children;
      var frag := Fragment(h, ParentNode(d, e).kind, html).value;
      var r := LegacyHtml(h, d, start, end, html, outerToo);
      && r.1 == Done
      && ValidPath(Tree(r.0), Parent(e))
      && kids[Last(s)] == At(Tree(d), s) && kids[Last(e)] == At(Tree(d), e)
      && At(Tree(r.0), Parent(e)).children
         == kids[..Last(s) + 1] + Renumber(frag, d.nextUid).0
            + (if outerToo then kids[Last(e) + 1..] else kids[Last(e)..])
  {
    LegacyHtmlOnSiblings(h, d, start, end, html, outerToo, s, e);
    SiblingHtmlBetween(h, d, s, e, html, outerToo);
  }

  /** On sibling markers `fixParentage` moves nothing. */
  lemma LegacyHtmlOnSiblings(h: Host, d: Doc, start: string, end: string, html: string, outerToo: bool, s: Path, e: Path)
    requires LegacyMarker(d, start) == Some(s) && LegacyMarker(d, end) == Some(e) && Parent(s) == Parent(e)
    ensures LegacyHtml(h, d, start, end, html, outerToo) == SiblingHtml(h, d, s, e, html, outerToo)
  {
  }

  /** The legacy `replaceWith(s)` on sibling markers keeps the start marker
      where it was and takes the end marker's node out of the document: no
      node of the result has its identity. */
  lemma LegacyReplaceWithDropsEnd(h: Host, d: Doc, s: Path, e: Path, html: string)
    requires DocValid(d) && InBody(d, s) && InBody(d, e) && Parent(s) == Parent(e) && Last(s) < Last(e)
    requires Fragment(h, ParentNode(d, e).kind, html).Ok?
    ensures var r := SiblingHtml(h, d, s, e, html, true).0;
      && ValidPath(Tree(r), Parent(e))
      && Last(s) < |At(Tree(r), Parent(e)).children|
      && At(Tree(r), Parent(e)).children[Last(s)] == At(Tree(d), s)
      && !ContainsUid(r, At(Tree(d), e).uid)
  {
    ParentOf(d, s);
    ParentOf(d, e);
    var p := Parent(e);
    var kids := ParentNode(d, e).children;
    var frag := Fragment(h, ParentNode(d, e).kind, html);
    var i, j := Last(s), Last(e);
    SiblingHtmlBetween(h, d, s, e, html, true);
    SiblingHtmlIsPatch(h, d, s, e, html, true);
    var c := Cut(i + 1, j + 1, i + 1);
    assert SiblingHtml(h, d, s, e, html, true).0 == Splice(Delete(d, p, c), p, i + 1, i + 1, frag.value);
    ReplaceRunDropsLast(d, e, i, frag.value);
  }

  /** Replacing the children after position `i` up to and including the one at
      `e` by fresh nodes leaves no node with the identity of the one at `e`. */
  lemma ReplaceRunDropsLast(d: Doc, e: Path, i: nat, frag: seq<Node>)
    requires DocValid(d) && InBody(d, e) && i < Last(e)
    ensures Last(e) < |ParentNode(d, e).children|
    ensures var p := Parent(e);
      var d1 := Delete(d, p, Cut(i + 1, Last(e) + 1, i + 1));
      !ContainsUid(Splice(d1, p, i + 1, i + 1, frag), At(Tree(d), e).uid)
  {
    ParentOf(d, e);
    var p := Parent(e);
    var j := Last(e);
    var kids := ParentNode(d, e).children;
    var d1 := Delete(d, p, Cut(i + 1, j + 1, i + 1));
    assert d1 == SetKids(d, p, kids[..i + 1] + kids[j + 1..]);
    DeletedGone(d, p, i + 1, j + 1, j);
    EntryAtIn(Tree(d), e, None);
    SpliceKeepsAbsent(d1, p, i + 1, i + 1, frag, kids[j].uid);
    AbsentNotContained(Splice(d1, p, i + 1, i + 1, frag), kids[j].uid);
  }

  /** The legacy `html` and `replaceWith` keep a document well formed, whether
      they finish or throw. */
  lemma LegacyHtmlValid(h: Host, d: Doc, start: string, end: string, html: string, outerToo: bool)
    requires DocValid(d)
    ensures DocValid(LegacyHtml(h, d, start, end, html, outerToo).0)
  {
    var s := LegacyMarker(d, start);
    var e := LegacyMarker(d, end);
    if s.Some? && e.Some? {
      FixParentageValid(d, s.value, e.value);
      var fixed := FixParentage(d, s.value, e.value);
      if fixed.Ok? {
        var (d1, s1, e1) := fixed.value;
        ParentOf(d1, s1);
        ParentOf(d1, e1);
        var n := |ParentNode(d1, e1).children|;
        PatchValid(d1, Parent(e1), LegacyCut(n, Last(s1), Last(e1), outerToo), Fragment(h, ParentNode(d1, e1).kind, html));
      }
    }
  }

  /** The two removals that end the legacy `removeFunc`: the start marker node,
      then the end marker node, each taken out of its parent. A node no longer in
      the body has no parent to be taken out of: a type error. */
  function RemoveMarkerNodes(d: Doc, su: nat, eu: nat): (r: (Doc, Outcome))
    ensures r.1 == Done || r.1 == Thrown(TypeError)
  {
    var ps := PathOfUid(d, su);
    if ps.None? then (d, Thrown(TypeError))
    else
      var d2 := Remove(d, ps.value);
      var pe := PathOfUid(d2, eu);
      if pe.None? then (d2, Thrown(TypeError))
      else (Remove(d2, pe.value), Done)
  }

  /** When both removals happen, neither node is left and the document stays
      well formed. */
  lemma RemoveMarkerNodesGone(d: Doc, su: nat, eu: nat)
    requires DocValid(d) && RemoveMarkerNodes(d, su, eu).1 == Done
    ensures var r := RemoveMarkerNodes(d, su, eu).0;
      DocValid(r) && !ContainsUid(r, su) && !ContainsUid(r, eu)
  {
    var ps := PathOfUid(d, su).value;
    var d2 := Remove(d, ps);
    RemoveGone(d, ps);
    var pe := PathOfUid(d2, eu).value;
    RemoveGone(d2, pe);
    var d3 := Remove(d2, pe);
    if ContainsUid(d3, su) {
      UidInEntries(d3, su);
    }
    if ContainsUid(d3, eu) {
      UidInEntries(d3, eu);
    }
  }

  /** Both removals keep a document well formed, even when the second (or the
      first) finds its node gone. */
  lemma RemoveMarkerNodesValid(d: Doc, su: nat, eu: nat)
    requires DocValid(d)
    ensures DocValid(RemoveMarkerNodes(d, su, eu).0)
  {
    var ps := PathOfUid(d, su);
    if ps.Some? {
      RemoveValid(d, ps.value);
      var d2 := Remove(d, ps.value);
      var pe := PathOfUid(d2, eu);
      if pe.Some? {
        RemoveValid(d2, pe.value);
      }
    }
  }

  /** `removeFunc` without ranges: both markers resolved (else not found), the
      content cleared with `html('')` (which also clears the stored content), then
      the two marker nodes removed. The last component is the stored content
      afterwards. */
  function LegacyRemove(h: Host, d: Doc, start: string, end: string, inner: string): (r: (Doc, Outcome, string))
    ensures r.1 == Thrown(NotFound) <==> LegacyMarker(d, start).None? || LegacyMarker(d, end).None?
    ensures r.1 == Thrown(NotFound) ==> r.0 == d && r.2 == inner
    ensures r.1 == Done ==> r.2 == ""
  {
    var s := LegacyMarker(d, start);
    var e := LegacyMarker(d, end);
    if s.None? || e.None? then (d, Thrown(NotFound), inner)
    else
      var (d1, o) := LegacyHtml(h, d, start, end, "", false);
      if o.Thrown? then (d1, o, inner)
      else
        var (d2, o2) := RemoveMarkerNodes(d1, At(Tree(d), s.value).uid, At(Tree(d), e.value).uid);
        (d2, o2, "")
  }

  /** After a legacy `remove()` that finishes, neither marker node is left in
      the document, and the document is still well formed. */
  lemma LegacyRemoveGone(h: Host, d: Doc, start: string, end: string, inner: string)
    requires DocValid(d) && LegacyRemove(h, d, start, end, inner).1 == Done
    ensures var r := LegacyRemove(h, d, start, end, inner).0;
      && DocValid(r)
      && !ContainsUid(r, At(Tree(d), LegacyMarker(d, start).value).uid)
      && !ContainsUid(r, At(Tree(d), LegacyMarker(d, end).value).uid)
  {
    LegacyHtmlValid(h, d, start, end, "", false);
    var d1 := LegacyHtml(h, d, start, end, "", false).0;
    RemoveMarkerNodesGone(d1, At(Tree(d), LegacyMarker(d, start).value).uid, At(Tree(d), LegacyMarker(d, end).value).uid);
  }

  /** The legacy `remove()` keeps a document well formed, whether it finishes
      or throws. */
  lemma LegacyRemoveValid(h: Host, d: Doc, start: string, end: string, inner: string)
    requires DocValid(d)
    ensures DocValid(LegacyRemove(h, d, start, end, inner).0)
  {
    LegacyHtmlValid(h, d, start, end, "", false);
    var s := LegacyMarker(d, start);
    var e := LegacyMarker(d, end);
    if s.Some? && e.Some? {
      RemoveMarkerNodesValid(LegacyHtml(h, d, start, end, "", false).0, At(Tree(d), s.value).uid, At(Tree(d), e.value).uid);
    }
  }

  /** `afterFunc` / `prependFunc` without ranges: the marker resolved (else not
      found), and the fragment for its parent inserted right after it. */
  function LegacyInsertAfter(h: Host, d: Doc, name: string, html: string): (r: (Doc, Outcome))
    ensures r.1 == Thrown(NotFound) <==> LegacyMarker(d, name).None?
    ensures r.1.Thrown? ==> r.0 == d
  {
    var m := LegacyMarker(d, name);
    if m.None? then (d, Thrown(NotFound))
    else
      ParentOf(d, m.value);
      FragmentFailsWithTypeError(h, ParentNode(d, m.value).kind, html);
      InsertAt(d, Parent(m.value), Last(m.value) + 1, Fragment(h, ParentNode(d, m.value).kind, html))
  }

  /** The legacy `after` / `prepend` that finishes puts the fragment's nodes
      right after the marker, keeping every other child in place. */
  lemma LegacyInsertAfterPlaces(h: Host, d: Doc, name: string, html: string)
    requires LegacyInsertAfter(h, d, name, html).1 == Done
    ensures var m := LegacyMarker(d, name).value;
      var kids := ParentNode(d, m).children;
      var frag := Fragment(h, ParentNode(d, m).kind, html);
      var r := LegacyInsertAfter(h, d, name, html).0;
      && frag.Ok? && kids[Last(m)] == At(Tree(d), m)
      && ValidPath(Tree(r), Parent(m))
      && At(Tree(r), Parent(m)).children == kids[..Last(m) + 1] + Renumber(frag.value, d.nextUid).0 + kids[Last(m) + 1..]
  {
    ParentOf(d, LegacyMarker(d, name).value);
  }

  /** `appendToFunc` without ranges: the region's outer markup, as a fragment
      for the target, appended to the target's children. A target that is not
      an element has no tag name, which is a type error. */
  function LegacyAppendTo(h: Host, d: Doc, target: Path, outer: string): (r: (Doc, Outcome))
    requires ValidPath(Tree(d), target)
    ensures !At(Tree(d), target).kind.Element? ==> r == (d, Thrown(TypeError))
    ensures r.1 == Done ==>
      var kids := At(Tree(d), target).children;
      var frag := Fragment(h, At(Tree(d), target).kind, outer);
      && frag.Ok?
      && ValidPath(Tree(r.0), target)
      && At(Tree(r.0), target).children == kids + Renumber(frag.value, d.nextUid).0
  {
    var kids := At(Tree(d), target).children;
    assert kids[|kids|..] == [] && kids[..|kids|] == kids;
    InsertAt(d, target, |kids|, Fragment(h, At(Tree(d), target).kind, outer))
  }

  /** `isRemovedFunc` without ranges. */
  function LegacyIsRemoved(d: Doc, start: string, end: string): bool {
    LegacyMarker(d, start).None? || LegacyMarker(d, end).None?
  }

  /** `isRemoved()` reports exactly the documents on which `html`,
      `replaceWith` and `remove` throw "not found". */
  lemma LegacyIsRemovedIffNotFound(h: Host, d: Doc, start: string, end: string, html: string, outerToo: bool, inner: string)
    ensures LegacyIsRemoved(d, start, end) <==> LegacyHtml(h, d, start, end, html, outerToo).1 == Thrown(NotFound)
    ensures LegacyIsRemoved(d, start, end) <==> LegacyRemove(h, d, start, end, inner).1 == Thrown(NotFound)
  {
  }

  // ---------------------------------------------------------------------------
  // With ranges

  /** `range.createContextualFragment(html)` for a range inside `parent`: the
      host's own contextual parser, or the wrapping-table fragment where the
      host lacks one. */
  function ContextFragment(h: Host, parent: NodeKind, html: string): (r: Result<seq<Node>>)
    ensures h.config.nativeContextualFragment ==> r.Ok?
    ensures r.Fail? ==> r.error == TypeError
  {
    FragmentFailsWithTypeError(h, parent, html);
    if h.config.nativeContextualFragment then Ok(h.parseInContext(parent, html))
    else Fragment(h, parent, html)
  }

  /** The two lookups of `rangeFor`, start first; the second sees the cache
      the first left. The range exists only when both resolve. */
  function RangeFor(d: Doc, c: Cache, start: string, end: string): (r: (Option<(Path, Path)>, Cache))
    ensures r.0.Some? ==> InBody(d, r.0.value.0) && InBody(d, r.0.value.1)
    ensures r.0.Some? ==> start in r.1 && end in r.1 && At(Tree(d), r.0.value.1).uid == r.1[end]
  {
    var (s, c1) := RangeMarker(d, c, start);
    var (e, c2) := RangeMarker(d, c1, end);
    RecordHas(c1, d, CommentPaths(d), start);
    if s.Some? && e.Some? then (Some((s.value, e.value)), c2) else (None, c2)
  }

  /** The part of the range branch this model covers: when both markers
      resolve, they are siblings. */
  predicate SameParentIfFound(d: Doc, c: Cache, start: string, end: string) {
    var m := RangeFor(d, c, start, end).0;
    m.Some? ==> Parent(m.value.0) == Parent(m.value.1)
  }

  /** `htmlFunc` with ranges on a resolved range: its contents deleted, then
      the contextual fragment inserted where the range now sits. */
  function RangeHtmlAt(h: Host, d: Doc, s: Path, e: Path, html: string, outerToo: bool): (r: (Doc, Outcome))
    requires InBody(d, s) && InBody(d, e) && Parent(s) == Parent(e)
    ensures r.1 == Done || r.1 == Thrown(TypeError)
  {
    ParentOf(d, s);
    ParentOf(d, e);
    Patch(d, Parent(e), RangeCut(Last(s), Last(e), outerToo), ContextFragment(h, ParentNode(d, e).kind, html))
  }

  /** `htmlFunc` with ranges: the range resolved (else not found), then the
      edit. */
  function RangeHtml(h: Host, d: Doc, c: Cache, start: string, end: string, html: string, outerToo: bool): (r: (Doc, Cache, Outcome))
    requires SameParentIfFound(d, c, start, end)
    ensures r.1 == RangeFor(d, c, start, end).1
    ensures r.2 == Thrown(NotFound) <==> RangeFor(d, c, start, end).0.None?
    ensures r.2 == Thrown(NotFound) ==> r.0 == d
  {
    var (m, c') := RangeFor(d, c, start, end);
    if m.None? then (d, c', Thrown(NotFound))
    else
      var (d', o) := RangeHtmlAt(h, d, m.value.0, m.value.1, html, outerToo);
      (d', c', o)
  }

  /** What a range `html(s)` leaves between two sibling markers, the start
      before the end, when the host can build the fragment: the children up to
      and including the start marker, the fragment's nodes, then the end marker
      and everything after it. */
  lemma RangeHtmlBetween(h: Host, d: Doc, s: Path, e: Path, html: string)
    requires InBody(d, s) && InBody(d, e) && Parent(s) == Parent(e) && Last(s) < Last(e)
    requires ContextFragment(h, ParentNode(d, e).kind, html).Ok?
    ensures var kids := ParentNode(d, e).children;
      var frag := ContextFragment(h, ParentNode(d, e).kind, html).value;
      var r := RangeHtmlAt(h, d, s, e, html, false);
      && r.1 == Done
      && ValidPath(Tree(r.0), Parent(e))
      && kids[Last(s)] == At(Tree(d), s) && kids[Last(e)] == At(Tree(d), e)
      && At(Tree(r.0), Parent(e)).children
         == kids[..Last(s) + 1] + Renumber(frag, d.nextUid).0 + kids[Last(e)..]
  {
    ParentOf(d, s);
    ParentOf(d, e);
    var kids := ParentNode(d, e).children;
    assert kids[Last(s) + 1..Last(s) + 1] == [];
  }

  /** A range `replaceWith(s)` on two sibling markers, the start before the
      end, replaces the markers and everything between them by the fragment. */
  lemma RangeReplaceWithOuter(h: Host, d: Doc, s: Path, e: Path, html: string)
    requires InBody(d, s) && InBody(d, e) && Parent(s) == Parent(e) && Last(s) <= Last(e)
    requires ContextFragment(h, ParentNode(d, e).kind, html).Ok?
    ensures var kids := ParentNode(d, e).children;
      var frag := ContextFragment(h, ParentNode(d, e).kind, html).value;
      var r := RangeHtmlAt(h, d, s, e, html, true);
      && r.1 == Done
      && ValidPath(Tree(r.0), Parent(e))
      && At(Tree(r.0), Parent(e)).children
         == kids[..Last(s)] + Renumber(frag, d.nextUid).0 + kids[Last(e) + 1..]
  {
    ParentOf(d, s);
    ParentOf(d, e);
    var kids := ParentNode(d, e).children;
    assert kids[Last(s)..Last(s)] == [];
  }

  /** A range `html(s)` or `replaceWith(s)` keeps a document well formed. */
  lemma RangeHtmlValid(h: Host, d: Doc, c: Cache, start: string, end: string, html: string, outerToo: bool)
    requires DocValid(d) && SameParentIfFound(d, c, start, end)
    ensures DocValid(RangeHtml(h, d, c, start, end, html, outerToo).0)
  {
    var m := RangeFor(d, c, start, end).0;
    if m.Some? {
      var (s, e) := m.value;
      ParentOf(d, s);
      ParentOf(d, e);
      PatchValid(d, Parent(e), RangeCut(Last(s), Last(e), outerToo), ContextFragment(h, ParentNode(d, e).kind, html));
    }
  }

  /** `removeFunc` with ranges on a resolved range: the contents of the range
      from before the start marker to after the end marker deleted. */
  function RangeRemoveAt(d: Doc, s: Path, e: Path): (r: Doc)
    requires InBody(d, s) && InBody(d, e) && Parent(s) == Parent(e)
  {
    ParentOf(d, s);
    ParentOf(d, e);
    Delete(d, Parent(e), RangeCut(Last(s), Last(e), true))
  }

  /** `removeFunc` with ranges: the range resolved (else not found), then the
      deletion. */
  function RangeRemove(d: Doc, c: Cache, start: string, end: string): (r: (Doc, Cache, Outcome))
    requires SameParentIfFound(d, c, start, end)
    ensures r.1 == RangeFor(d, c, start, end).1
    ensures r.2 == Thrown(NotFound) <==> RangeFor(d, c, start, end).0.None?
    ensures r.2.Thrown? ==> r.0 == d
  {
    var (m, c') := RangeFor(d, c, start, end);
    if m.None? then (d, c', Thrown(NotFound))
    else (RangeRemoveAt(d, m.value.0, m.value.1), c', Done)
  }

  /** `isRemovedFunc` with ranges: whether the range fails to resolve, and the
      cache the lookups leave. */
  function RangeIsRemoved(d: Doc, c: Cache, start: string, end: string): (r: (bool, Cache))
    ensures r.1 == RangeFor(d, c, start, end).1
  {
    var (m, c') := RangeFor(d, c, start, end);
    (m.None?, c')
  }

  /** With ranges too, `isRemoved()` reports exactly the documents on which
      `html`, `replaceWith` and `remove` throw "not found". */
  lemma RangeIsRemovedIffNotFound(h: Host, d: Doc, c: Cache, start: string, end: string, html: string, outerToo: bool)
    requires SameParentIfFound(d, c, start, end)
    ensures RangeIsRemoved(d, c, start, end).0 <==> RangeHtml(h, d, c, start, end, html, outerToo).2 == Thrown(NotFound)
    ensures RangeIsRemoved(d, c, start, end).0 <==> RangeRemove(d, c, start, end).2 == Thrown(NotFound)
  {
  }

  /** On sibling markers, the start before (or at) the end, the range removal
      deletes the markers and everything between them, keeps the document well
      formed, and leaves the end marker's node out of the body. */
  lemma RangeRemoveAtGone(d: Doc, s: Path, e: Path)
    requires DocValid(d) && InBody(d, s) && InBody(d, e) && Parent(s) == Parent(e) && Last(s) <= Last(e)
    ensures var r := RangeRemoveAt(d, s, e);
      var kids := ParentNode(d, e).children;
      && DocValid(r)
      && ValidPath(Tree(r), Parent(e))
      && At(Tree(r), Parent(e)).children == kids[..Last(s)] + kids[Last(e) + 1..]
      && !ContainsUid(r, At(Tree(d), e).uid)
  {
    ParentOf(d, s);
    ParentOf(d, e);
    var cut := RangeCut(Last(s), Last(e), true);
    DeleteRunValid(d, Parent(e), cut.from, cut.to);
    DeletedGone(d, Parent(e), cut.from, cut.to, Last(e));
  }

  /** A range `remove()` of a region whose start marker comes first makes a
      later `isRemoved()` true (its lookups hit the cache and find the end
      marker gone, leaving the cache as it is) and a later `html(s)` throw. */
  lemma RangeRemoveRemoves(h: Host, d: Doc, c: Cache, start: string, end: string, html: string, outerToo: bool)
    requires DocValid(d) && SameParentIfFound(d, c, start, end) && RangeFor(d, c, start, end).0.Some?
    requires var (s, e) := RangeFor(d, c, start, end).0.value; Last(s) <= Last(e)
    ensures var (d', c', o) := RangeRemove(d, c, start, end);
      && o == Done && DocValid(d')
      && RangeIsRemoved(d', c', start, end) == (true, c')
      && SameParentIfFound(d', c', start, end)
      && RangeHtml(h, d', c', start, end, html, outerToo).2 == Thrown(NotFound)
  {
    var (s, e) := RangeFor(d, c, start, end).0.value;
    var (d', c', o) := RangeRemove(d, c, start, end);
    RangeRemoveAtGone(d, s, e);
    assert RangeMarker(d', c', start).1 == c';
    assert RangeMarker(d', c', end).0.None?;
  }

  /** A range `remove()` whose end marker comes before its start marker deletes
      nothing: the range collapses. */
  lemma RangeRemoveReversed(d: Doc, s: Path, e: Path)
    requires InBody(d, s) && InBody(d, e) && Parent(s) == Parent(e) && Last(e) < Last(s)
    ensures RangeRemoveAt(d, s, e) == d
  {
    ParentOf(d, e);
    var kids := ParentNode(d, e).children;
    var cut := RangeCut(Last(s), Last(e), true);
    assert kids[..cut.from] + kids[cut.to..] == kids;
    SetKidsUnchanged(d, Parent(e));
  }

  /** `afterFunc` / `prependFunc` with ranges: the marker resolved through the
      cache (else not found), and the contextual fragment inserted right after
      it. */
  function RangeInsertAfter(h: Host, d: Doc, c: Cache, name: string, html: string): (r: (Doc, Cache, Outcome))
    ensures r.1 == RangeMarker(d, c, name).1
    ensures r.2 == Thrown(NotFound) <==> RangeMarker(d, c, name).0.None?
    ensures r.2.Thrown? ==> r.0 == d
  {
    var (m, c') := RangeMarker(d, c, name);
    if m.None? then (d, c', Thrown(NotFound))
    else
      ParentOf(d, m.value);
      var (d', o) := InsertAt(d, Parent(m.value), Last(m.value) + 1, ContextFragment(h, ParentNode(d, m.value).kind, html));
      (d', c', o)
  }

  /** The range `after` / `prepend` that finishes puts the fragment's nodes
      right after the marker, keeping every other child in place. */
  lemma RangeInsertAfterPlaces(h: Host, d: Doc, c: Cache, name: string, html: string)
    requires RangeInsertAfter(h, d, c, name, html).2 == Done
    ensures var m := RangeMarker(d, c, name).0.value;
      var kids := ParentNode(d, m).children;
      var frag := ContextFragment(h, ParentNode(d, m).kind, html);
      var r := RangeInsertAfter(h, d, c, name, html).0;
      && frag.Ok? && kids[Last(m)] == At(Tree(d), m)
      && ValidPath(Tree(r), Parent(m))
      && At(Tree(r), Parent(m)).children == kids[..Last(m) + 1] + Renumber(frag.value, d.nextUid).0 + kids[Last(m) + 1..]
  {
    ParentOf(d, RangeMarker(d, c, name).0.value);
  }

  /** `appendToFunc` with ranges: the outer markup parsed in the context of the
      target and appended to it. Only an element (the body included) accepts
      children: any other target is a hierarchy error, once the fragment is
      built. */
  function RangeAppendTo(h: Host, d: Doc, target: Path, outer: string): (r: (Doc, Outcome))
    requires ValidPath(Tree(d), target)
    ensures r.1.Thrown? ==> r.0 == d
    ensures !At(Tree(d), target).kind.Element? ==> r.1.Thrown?
    ensures r.1 == Done ==>
      var kids := At(Tree(d), target).children;
      var frag := ContextFragment(h, At(Tree(d), target).kind, outer);
      && frag.Ok? && At(Tree(d), target).kind.Element?
      && ValidPath(Tree(r.0), target)
      && At(Tree(r.0), target).children == kids + Renumber(frag.value, d.nextUid).0
  {
    var kind := At(Tree(d), target).kind;
    var kids := At(Tree(d), target).children;
    var frag := ContextFragment(h, kind, outer);
    if frag.Fail? then (d, Thrown(frag.error))
    else if !kind.Element? then (d, Thrown(HierarchyRequest))
    else
      assert kids[|kids|..] == [] && kids[..|kids|] == kids;
      InsertAt(d, target, |kids|, frag)
  }

  /** Inserting next to a marker keeps a document well formed. */
  lemma LegacyInsertAfterValid(h: Host, d: Doc, name: string, html: string)
    requires DocValid(d)
    ensures DocValid(LegacyInsertAfter(h, d, name, html).0)
  {
    var m := LegacyMarker(d, name);
    if m.Some? {
      var q := m.value;
      ParentOf(d, q);
      var frag := Fragment(h, ParentNode(d, q).kind, html);
      assert LegacyInsertAfter(h, d, name, html) == InsertAt(d, Parent(q), Last(q) + 1, frag);
      InsertAtValid(d, Parent(q), Last(q) + 1, frag);
    }
  }

  lemma RangeInsertAfterValid(h: Host, d: Doc, c: Cache, name: string, html: string)
    requires DocValid(d)
    ensures DocValid(RangeInsertAfter(h, d, c, name, html).0)
  {
    var m := RangeMarker(d, c, name).0;
    if m.Some? {
      var q := m.value;
      ParentOf(d, q);
      var frag := ContextFragment(h, ParentNode(d, q).kind, html);
      assert RangeInsertAfter(h, d, c, name, html).0 == InsertAt(d, Parent(q), Last(q) + 1, frag).0;
      InsertAtValid(d, Parent(q), Last(q) + 1, frag);
    }
  }

  /** Appending to a target keeps a document well formed. */
  lemma AppendToValid(h: Host, d: Doc, target: Path, outer: string)
    requires DocValid(d) && ValidPath(Tree(d), target)
    ensures DocValid(LegacyAppendTo(h, d, target, outer).0)
    ensures DocValid(RangeAppendTo(h, d, target, outer).0)
  {
    var n := |At(Tree(d), target).children|;
    InsertAtValid(d, target, n, Fragment(h, At(Tree(d), target).kind, outer));
    InsertAtValid(d, target, n, ContextFragment(h, At(Tree(d), target).kind, outer));
  }

  /** A range `remove()` keeps a document well formed. */
  lemma RangeRemoveValid(d: Doc, c: Cache, start: string, end: string)
    requires DocValid(d) && SameParentIfFound(d, c, start, end)
    ensures DocValid(RangeRemove(d, c, start, end).0)
  {
    var m := RangeFor(d, c, start, end).0;
    if m.Some? {
      var (s, e) := m.value;
      ParentOf(d, s);
      ParentOf(d, e);
      var cut := RangeCut(Last(s), Last(e), true);
      DeleteRunValid(d, Parent(e), cut.from, cut.to);
    }
  }
}
