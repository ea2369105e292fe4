/** The first revision of the engine: script placeholders found by id, the
    content between them edited through a range, no fallback for hosts without
    a contextual parser, and a `removed` flag set by `remove()`. */
module MainRevision {
  import opened Outcomes
  import opened Dom
  import opened Markers
  import opened Fragments
  import opened Locators
  import opened Edits
  import opened Regions

  /** `checkRemoved`: both placeholders must be in the document. */
  function MainCheck(d: Doc, start: string, end: string): Outcome {
    if ById(d, start).None? || ById(d, end).None? then Thrown(NotFound) else Done
  }

  /** The part of this revision the model covers: found placeholders are
      siblings. */
  predicate MainSameParent(d: Doc, start: string, end: string) {
    ById(d, start).Some? && ById(d, end).Some? ==> Parent(ById(d, start).value) == Parent(ById(d, end).value)
  }

  /** `range(outerToo)`: the parent of the placeholders and the range's cut.
      Setting a range boundary beside a placeholder that was not found is a
      type error. */
  function MainRange(d: Doc, start: string, end: string, outerToo: bool): (r: Result<(Path, Cut)>)
    requires MainSameParent(d, start, end)
    ensures r.Fail? <==> ById(d, start).None? || ById(d, end).None?
    ensures r.Fail? ==> r.error == TypeError
    ensures r.Ok? ==> ValidPath(Tree(d), r.value.0) && Fits(r.value.1, |At(Tree(d), r.value.0).children|)
  {
    var s := ById(d, start);
    var e := ById(d, end);
    if s.None? || e.None? then Fail(TypeError)
    else
      ParentOf(d, s.value);
      ParentOf(d, e.value);
      Ok((Parent(e.value), RangeCut(Last(s.value), Last(e.value), outerToo)))
  }

  /** `range.createContextualFragment(html)` with no polyfill: a host without
      the method fails with a type error. */
  function MainFragment(h: Host, parent: NodeKind, html: string): (r: Result<seq<Node>>)
    ensures r.Ok? <==> h.config.nativeContextualFragment
    ensures r.Fail? ==> r.error == TypeError
  {
    if h.config.nativeContextualFragment then Ok(h.parseInContext(parent, html)) else Fail(TypeError)
  }

  /** `html(s)`: the check first, then the range's contents deleted and the
      contextual fragment inserted. */
  function MainHtml(h: Host, d: Doc, start: string, end: string, html: string): (r: (Doc, Outcome))
    requires MainSameParent(d, start, end)
    ensures r.1 == Thrown(NotFound) <==> MainCheck(d, start, end).Thrown?
    ensures r.1 == Thrown(NotFound) ==> r.0 == d
    ensures r.1 == Done <==> MainCheck(d, start, end) == Done && h.config.nativeContextualFragment
  {
    if MainCheck(d, start, end).Thrown? then (d, Thrown(NotFound))
    else
      var range := MainRange(d, start, end, false);
      if range.Fail? then (d, Thrown(TypeError))
      else
        var (p, cut) := range.value;
        Patch(d, p, cut, MainFragment(h, At(Tree(d), p).kind, html))
  }

  /** `remove()`: the range including both placeholders deleted; a missing
      placeholder is a type error, before any edit. */
  function MainRemove(d: Doc, start: string, end: string): (r: (Doc, Outcome))
    requires MainSameParent(d, start, end)
    ensures r.1 == Done <==> MainCheck(d, start, end) == Done
    ensures r.1.Thrown? ==> r == (d, Thrown(TypeError))
  {
    var range := MainRange(d, start, end, true);
    if range.Fail? then (d, Thrown(range.error))
    else (Delete(d, range.value.0, range.value.1), Done)
  }

  /** With the start placeholder before the end one and a contextual parser,
      `html(s)` leaves the children up to and including the start placeholder,
      the new nodes, then the end placeholder and everything after it. */
  lemma MainHtmlBetween(h: Host, d: Doc, start: string, end: string, html: string)
    requires MainSameParent(d, start, end) && MainCheck(d, start, end) == Done
    requires Last(ById(d, start).value) < Last(ById(d, end).value) && h.config.nativeContextualFragment
    ensures var s := ById(d, start).value;
      var e := ById(d, end).value;
      var kids := ParentNode(d, e).children;
      var r := MainHtml(h, d, start, end, html);
      && r.1 == Done && ValidPath(Tree(r.0), Parent(e))
      && kids[Last(s)] == At(Tree(d), s) && kids[Last(e)] == At(Tree(d), e)
      && At(Tree(r.0), Parent(e)).children
         == kids[..Last(s) + 1] + Renumber(h.parseInContext(ParentNode(d, e).kind, html), d.nextUid).0 + kids[Last(e)..]
  {
    var s := ById(d, start).value;
    var e := ById(d, end).value;
    var p := Parent(e);
    var kids := ParentNode(d, e).children;
    MainHtmlIsPatch(h, d, start, end, html);
    assert ParentNode(d, s) == ParentNode(d, e);
    var c := RangeCut(Last(s), Last(e), false);
    assert c.at == Last(s) + 1 && c.from == Last(s) + 1 && c.to == Last(e);
    assert kids[c.at..c.from] == [];
  }

  /** With both placeholders found, `html(s)` is the patch of the inner range
      with the contextual fragment. */
  lemma MainHtmlIsPatch(h: Host, d: Doc, start: string, end: string, html: string)
    requires MainSameParent(d, start, end) && MainCheck(d, start, end) == Done
    ensures InBody(d, ById(d, start).value) && InBody(d, ById(d, end).value)
    ensures var s := ById(d, start).value;
      var e := ById(d, end).value;
      && Parent(s) == Parent(e)
      && Fits(RangeCut(Last(s), Last(e), false), |ParentNode(d, e).children|)
      && MainHtml(h, d, start, end, html)
         == Patch(d, Parent(e), RangeCut(Last(s), Last(e), false), MainFragment(h, ParentNode(d, e).kind, html))
  {
    ParentOf(d, ById(d, start).value);
    ParentOf(d, ById(d, end).value);
  }

  /** On a host without a contextual parser, `html(s)` throws only after the
      content between the placeholders is gone: the deletion is not undone. */
  lemma MainHtmlWithoutParser(h: Host, d: Doc, start: string, end: string, html: string)
    requires MainSameParent(d, start, end) && MainCheck(d, start, end) == Done
    requires Last(ById(d, start).value) < Last(ById(d, end).value) && !h.config.nativeContextualFragment
    ensures var s := ById(d, start).value;
      var e := ById(d, end).value;
      var kids := ParentNode(d, e).children;
      var r := MainHtml(h, d, start, end, html);
      && r.1 == Thrown(TypeError) && ValidPath(Tree(r.0), Parent(e))
      && At(Tree(r.0), Parent(e)).children == kids[..Last(s) + 1] + kids[Last(e)..]
  {
    ParentOf(d, ById(d, start).value);
    ParentOf(d, ById(d, end).value);
  }

  /** Every element of the document carrying `id` is the node `u`. */
  ghost predicate OnlyCarrier(d: Doc, id: string, u: nat) {
    forall x :: x in AllEntries(d) && x.kind.Element? && x.kind.id == id ==> x.uid == u
  }

  /** When the end placeholder is the only element with its id and comes after
      the start one, `remove()` finishes, deleting both placeholders and
      everything between them from their parent's children; afterwards the end
      placeholder's id resolves to nothing, so `GoneEndThrows` applies. */
  lemma MainRemoveRemoves(d: Doc, start: string, end: string)
    requires DocValid(d) && MainSameParent(d, start, end) && MainCheck(d, start, end) == Done
    requires Last(ById(d, start).value) <= Last(ById(d, end).value)
    requires OnlyCarrier(d, end, At(Tree(d), ById(d, end).value).uid)
    ensures var (d', o) := MainRemove(d, start, end);
      var s := ById(d, start).value;
      var e := ById(d, end).value;
      && o == Done && DocValid(d')
      && ValidPath(Tree(d'), Parent(e))
      && At(Tree(d'), Parent(e)).children == ParentNode(d, e).children[..Last(s)] + ParentNode(d, e).children[Last(e) + 1..]
      && ById(d', end).None?
  {
    var s := ById(d, start).value;
    var e := ById(d, end).value;
    MainRemoveIsRange(d, start, end);
    RangeRemoveOnlyCarrier(d, s, e, end);
  }

  /** Removing the range that ends at the only carrier of `id` leaves the
      parent with the children outside the range and no carrier of `id`. */
  lemma RangeRemoveOnlyCarrier(d: Doc, s: Path, e: Path, id: string)
    requires DocValid(d) && InBody(d, s) && InBody(d, e) && Parent(s) == Parent(e) && Last(s) <= Last(e)
    requires OnlyCarrier(d, id, At(Tree(d), e).uid)
    ensures var r := RangeRemoveAt(d, s, e);
      && DocValid(r)
      && ValidPath(Tree(r), Parent(e))
      && At(Tree(r), Parent(e)).children == ParentNode(d, e).children[..Last(s)] + ParentNode(d, e).children[Last(e) + 1..]
      && ById(r, id).None?
  {
    RangeRemoveAtGone(d, s, e);
    NoCarrierLeft(d, s, e, id);
  }

  /** With both placeholders found, `remove()` is the range removal between them. */
  lemma MainRemoveIsRange(d: Doc, start: string, end: string)
    requires MainSameParent(d, start, end) && MainCheck(d, start, end) == Done
    ensures InBody(d, ById(d, start).value) && InBody(d, ById(d, end).value)
    ensures Parent(ById(d, start).value) == Parent(ById(d, end).value)
    ensures MainRemove(d, start, end) == (RangeRemoveAt(d, ById(d, start).value, ById(d, end).value), Done)
  {
  }

  /** Once the end placeholder is gone (as after `remove()`), `checkRemoved`
      throws, `remove()` is a type error and `html(s)` throws. */
  lemma GoneEndThrows(h: Host, d: Doc, start: string, end: string, html: string)
    requires ById(d, end).None?
    ensures MainSameParent(d, start, end)
    ensures MainCheck(d, start, end) == Thrown(NotFound)
    ensures MainRemove(d, start, end) == (d, Thrown(TypeError))
    ensures MainHtml(h, d, start, end, html) == (d, Thrown(NotFound))
  {
  }

  /** Once the range removal has taken the only carrier of `id` out, no element
      of the body carries it. */
  lemma NoCarrierLeft(d: Doc, s: Path, e: Path, id: string)
    requires DocValid(d) && InBody(d, s) && InBody(d, e) && Parent(s) == Parent(e) && Last(s) <= Last(e)
    requires OnlyCarrier(d, id, At(Tree(d), e).uid)
    ensures ById(RangeRemoveAt(d, s, e), id).None?
  {
    var d' := RangeRemoveAt(d, s, e);
    RangeRemoveAtGone(d, s, e);
    ParentOf(d, s);
    ParentOf(d, e);
    var cut := RangeCut(Last(s), Last(e), true);
    DeleteShrinks(d, Parent(e), cut.from, cut.to);
    if ById(d', id).Some? {
      var q := ById(d', id).value;
      EntryAtIn(Tree(d'), q, None);
    }
  }

  /** `html(s)` keeps a document well formed, whether it finishes or throws. */
  lemma MainHtmlValid(h: Host, d: Doc, start: string, end: string, html: string)
    requires DocValid(d) && MainSameParent(d, start, end)
    ensures DocValid(MainHtml(h, d, start, end, html).0)
  {
    if MainCheck(d, start, end) == Done {
      var (p, cut) := MainRange(d, start, end, false).value;
      PatchValid(d, p, cut, MainFragment(h, At(Tree(d), p).kind, html));
    }
  }

  /** So does `remove()`. */
  lemma MainRemoveValid(d: Doc, start: string, end: string)
    requires DocValid(d) && MainSameParent(d, start, end)
    ensures DocValid(MainRemove(d, start, end).0)
  {
    if MainCheck(d, start, end) == Done {
      var (p, cut) := MainRange(d, start, end, true).value;
      DeleteRunValid(d, p, cut.from, cut.to);
    }
  }

  /** The document and counter the first revision shares between regions. */
  class Page {
    const host: Host
    var guid: nat
    var doc: Doc

    ghost predicate Valid()
      reads this
    {
      DocValid(doc)
    }

    constructor (host: Host, doc: Doc)
      requires DocValid(doc)
      ensures this.host == host && this.doc == doc && guid == 0
      ensures Valid()
    {
      this.host := host;
      this.doc := doc;
      guid := 0;
    }
  }

  /** A region of the first revision. */
  class Metamorph {
    const page: Page
    const start: string
    const end: string
    var innerHTML: string
    var removed: bool

    constructor (page: Page, html: string)
      modifies page
      ensures this.page == page && innerHTML == html && !removed
      ensures start == StartId(old(page.guid)) && end == EndId(old(page.guid))
      ensures page.guid == old(page.guid) + 1 && page.doc == old(page.doc)
    {
      var myGuid := page.guid;
      page.guid := page.guid + 1;
      this.page := page;
      innerHTML := html;
      removed := false;
      start := StartId(myGuid);
      end := EndId(myGuid);
    }

    /** The markup a template embeds: two script placeholders around the
        content. */
    function OuterHTML(): string
      reads this
    {
      MainOuterHTML(start, end, innerHTML)
    }

    method CheckRemoved() returns (o: Outcome)
      ensures o == MainCheck(page.doc, start, end)
    {
      var before := ById(page.doc, start);
      var after := ById(page.doc, end);
      if before.None? || after.None? {
        return Thrown(NotFound);
      }
      o := Done;
    }

    /** `html(s)`: the content replaced in the document. The stored content is
        never updated by this revision. */
    method Html(html: string) returns (o: Outcome)
      requires page.Valid() && MainSameParent(page.doc, start, end)
      modifies page
      ensures page.Valid() && page.guid == old(page.guid) && innerHTML == old(innerHTML)
      ensures (page.doc, o) == MainHtml(page.host, old(page.doc), start, end, html)
    {
      var d := page.doc;
      MainHtmlValid(page.host, d, start, end, html);
      o := CheckRemoved();
      if o.Thrown? {
        return;
      }
      var range := MainRange(d, start, end, false);
      if range.Fail? {
        return Thrown(TypeError);
      }
      o := ReplaceRange(range.value.0, range.value.1, html);
    }

    /** `range.deleteContents()`, then the contextual fragment inserted where
        the range collapsed; a host without the method throws after the
        deletion. */
    method ReplaceRange(p: Path, cut: Cut, html: string) returns (o: Outcome)
      requires ValidPath(Tree(page.doc), p) && Fits(cut, |At(Tree(page.doc), p).children|)
      modifies page
      ensures page.guid == old(page.guid)
      ensures (page.doc, o) == Patch(old(page.doc), p, cut, MainFragment(page.host, At(Tree(old(page.doc)), p).kind, html))
    {
      var kind := At(Tree(page.doc), p).kind;
      var d1 := Delete(page.doc, p, cut);
      ghost var kids := At(Tree(page.doc), p).children;
      assert |kids[..cut.from] + kids[cut.to..]| == |kids| - (cut.to - cut.from);
      page.doc := d1;
      if !page.host.config.nativeContextualFragment {
        return Thrown(TypeError);
      }
      page.doc := Splice(d1, p, cut.at, cut.at, page.host.parseInContext(kind, html));
      o := Done;
    }

    /** `remove()`: the placeholders and the content between them deleted,
        then the region marked removed. */
    method Remove() returns (o: Outcome)
      requires page.Valid() && MainSameParent(page.doc, start, end)
      modifies this, page
      ensures page.Valid() && page.guid == old(page.guid) && innerHTML == old(innerHTML)
      ensures (page.doc, o) == MainRemove(old(page.doc), start, end)
      ensures removed == (old(removed) || o == Done)
    {
      MainRemoveValid(page.doc, start, end);
      var range := MainRange(page.doc, start, end, true);
      if range.Fail? {
        return Thrown(range.error);
      }
      page.doc := Delete(page.doc, range.value.0, range.value.1);
      removed := true;
      o := Done;
    }
  }
}
