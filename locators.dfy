/** Resolving a marker id to a node of the document, in the two ways the
    engine does it, and the repair that puts two resolved markers under one
    parent.
    - Without ranges: the element with that id, lifted out of any nameless
      wrappers the host put around it; failing that, a text node holding the id
      directly under a `select`.
    - With ranges: a cache from comment text to comment node, filled by one walk
      over all comments of the body on a miss, whose hits count only while the
      body still contains the node. */
module Locators {
  import opened Outcomes
  import opened Text
  import opened Dom

  // ---------------------------------------------------------------------------
  // Lookup by id, lifted out of nameless wrappers

  /** `document.getElementById(id)`: the first element of the body, in document
      order, carrying the id. */
  function ById(d: Doc, id: string): (r: Option<Path>)
    ensures r.Some? ==> InBody(d, r.value) && At(Tree(d), r.value).kind.Element?
                        && At(Tree(d), r.value).kind.id == id
    ensures r.None? <==> forall q :: InBody(d, q) ==>
      !(At(Tree(d), q).kind.Element? && At(Tree(d), q).kind.id == id)
    ensures r.Some? ==> forall q :: InBody(d, q) && Before(q, r.value) ==>
      !(At(Tree(d), q).kind.Element? && At(Tree(d), q).kind.id == id)
  {
    FindInBody(d, (e: Entry) => e.kind.Element? && e.kind.id == id)
  }

  /** `realNode`: climbs from a node while its parent is a nameless element.
      The body is a named element, so the climb never leaves it. */
  function RealNode(d: Doc, q: Path): (r: Path)
    requires InBody(d, q)
    ensures InBody(d, r) && IsPrefix(r, q)
    ensures |r| == 2 || !IsNameless(ParentNode(d, r))
    ensures forall n :: |r| <= n < |q| ==> ValidPath(Tree(d), q[..n]) && IsNameless(At(Tree(d), q[..n]))
    decreases |q|
  {
    if |q| > 2 && IsNameless(ParentNode(d, q)) then
      PrefixValid(Tree(d), q, |q| - 1);
      var r := RealNode(d, Parent(q));
      assert forall n :: |r| <= n < |q| - 1 ==> Parent(q)[..n] == q[..n];
      r
    else q
  }

  /** The loop of `realNode`, one parent at a time. */
  method ClimbToRealNode(d: Doc, q: Path) returns (r: Path)
    requires InBody(d, q)
    ensures r == RealNode(d, q)
  {
    r := q;
    while |r| > 2 && IsNameless(ParentNode(d, r))
      invariant InBody(d, r) && RealNode(d, r) == RealNode(d, q)
      decreases |r|
    {
      PrefixValid(Tree(d), r, |r| - 1);
      r := Parent(r);
    }
  }

  // ---------------------------------------------------------------------------
  // The fallback: a text node holding the id directly inside a `select`

  predicate IsSelect(k: NodeKind) {
    k.Element? && ToLower(k.tag) == "select"
  }

  /** `document.getElementsByTagName("select")`, in document order. */
  function Selects(d: Doc): (r: seq<Path>)
    ensures forall k :: 0 <= k < |r| ==> |r[k]| >= 2 && ValidPath(Tree(d), r[k]) && IsSelect(At(Tree(d), r[k]).kind)
  {
    var below := AllWhere(d.body.children, Some(d.body.kind), (e: Entry) => IsSelect(e.kind));
    AllWhereSound(d.body.children, Some(d.body.kind), (e: Entry) => IsSelect(e.kind));
    forall k | 0 <= k < |below| ensures InBody(d, Under(0, below)[k]) {
      UnderAt(0, below, k);
      UnderOne(Tree(d), None, below[k]);
    }
    forall k | 0 <= k < |below| ensures IsSelect(At(Tree(d), Under(0, below)[k]).kind) {
      UnderAt(0, below, k);
      UnderOne(Tree(d), None, below[k]);
    }
    Under(0, below)
  }

  predicate IsTextOf(n: Node, name: string) {
    n.kind == Text(name)
  }

  /** The first child, from index `from` on, that is a text node holding `name`. */
  function TextChild(kids: seq<Node>, name: string, from: nat): (r: Option<nat>)
    requires from <= |kids|
    ensures r.Some? ==> from <= r.value < |kids| && IsTextOf(kids[r.value], name)
    ensures r.None? <==> forall k :: from <= k < |kids| ==> !IsTextOf(kids[k], name)
    ensures r.Some? ==> forall k :: from <= k < r.value ==> !IsTextOf(kids[k], name)
    decreases |kids| - from
  {
    if from == |kids| then None
    else if IsTextOf(kids[from], name) then Some(from)
    else TextChild(kids, name, from + 1)
  }

  /** The scan over the `select` elements `sels`, from index `from` on. */
  function ScanSelects(d: Doc, sels: seq<Path>, name: string, from: nat): (r: Option<Path>)
    requires from <= |sels| && forall k :: 0 <= k < |sels| ==> |sels[k]| >= 2 && ValidPath(Tree(d), sels[k])
    ensures r.Some? ==> InBody(d, r.value) && IsTextOf(At(Tree(d), r.value), name)
                        && Parent(r.value) in sels[from..]
    ensures r.None? <==> NoTextMarker(d, sels, name, from)
    decreases |sels| - from
  {
    if from == |sels| then None
    else
      var kids := At(Tree(d), sels[from]).children;
      var t := TextChild(kids, name, 0);
      if t.Some? then
        AtChild(Tree(d), sels[from], t.value);
        assert Parent(sels[from] + [t.value]) == sels[from];
        Some(sels[from] + [t.value])
      else
        var r := ScanSelects(d, sels, name, from + 1);
        assert sels[from..] == [sels[from]] + sels[from + 1..];
        assert forall c :: 0 <= c < |kids| ==> !IsTextOf(kids[c], name);
        assert r.Some? ==> Parent(r.value) in sels[from..];
        assert NoTextMarker(d, sels, name, from) <==> NoTextMarker(d, sels, name, from + 1);
        r
  }

  /** Where the scan stops: the first `select` of `sels`, from index `from` on,
      with a text child holding `name`, and the first such child in it. */
  lemma {:induction false} ScanSelectsAt(d: Doc, sels: seq<Path>, name: string, from: nat) returns (i: nat)
    requires from <= |sels| && forall k :: 0 <= k < |sels| ==> |sels[k]| >= 2 && ValidPath(Tree(d), sels[k])
    requires ScanSelects(d, sels, name, from).Some?
    ensures from <= i < |sels| && TextChild(At(Tree(d), sels[i]).children, name, 0).Some?
    ensures ScanSelects(d, sels, name, from).value
         == sels[i] + [TextChild(At(Tree(d), sels[i]).children, name, 0).value]
    ensures forall k, c :: from <= k < i && 0 <= c < |At(Tree(d), sels[k]).children| ==>
      !IsTextOf(At(Tree(d), sels[k]).children[c], name)
    decreases |sels| - from
  {
    if TextChild(At(Tree(d), sels[from]).children, name, 0).Some? {
      i := from;
    } else {
      i := ScanSelectsAt(d, sels, name, from + 1);
    }
  }

  /** No `select` of `sels`, from index `from` on, has a text child holding `name`. */
  predicate NoTextMarker(d: Doc, sels: seq<Path>, name: string, from: nat)
    requires forall k :: 0 <= k < |sels| ==> |sels[k]| >= 2 && ValidPath(Tree(d), sels[k])
  {
    forall k, c :: from <= k < |sels| && 0 <= c < |At(Tree(d), sels[k]).children| ==>
      !IsTextOf(At(Tree(d), sels[k]).children[c], name)
  }

  /** The text-marker fallback of the lookup without ranges. */
  function SelectMarker(d: Doc, name: string): (r: Option<Path>)
    ensures r.Some? ==> InBody(d, r.value) && IsTextOf(At(Tree(d), r.value), name)
                        && |r.value| >= 3 && IsSelect(ParentNode(d, r.value).kind)
  {
    var sels := Selects(d);
    var r := ScanSelects(d, sels, name, 0);
    if r.Some? then
      assert sels[0..] == sels;
      r
    else r
  }

  /** The fallback finds a text marker exactly when some `select` of the body
      has a text child holding the id. */
  lemma SelectMarkerComplete(d: Doc, name: string)
    ensures SelectMarker(d, name).None? <==>
      forall q :: InBody(d, q) && |q| >= 3 && IsTextOf(At(Tree(d), q), name) ==>
        !IsSelect(ParentNode(d, q).kind)
  {
    var sels := Selects(d);
    if SelectMarker(d, name).None? {
      forall q | InBody(d, q) && |q| >= 3 && IsTextOf(At(Tree(d), q), name)
        ensures !IsSelect(ParentNode(d, q).kind)
      {
        var p := Parent(q);
        PrefixValid(Tree(d), q, |q| - 1);
        AtChild(Tree(d), p, Last(q));
        assert p + [Last(q)] == q;
        if IsSelect(At(Tree(d), p).kind) {
          BodyPath(d, p);
          var below := AllWhere(d.body.children, Some(d.body.kind), (e: Entry) => IsSelect(e.kind));
          var k := AllWhereHasPath(d.body.children, Some(d.body.kind), (e: Entry) => IsSelect(e.kind), p[1..]);
          UnderAt(0, below, k);
        }
      }
    }
  }

  /** `getElementsByTagName` lists every `select` of the body, in document order. */
  lemma SelectsInOrder(d: Doc)
    ensures Sorted(Selects(d))
    ensures forall q :: InBody(d, q) && IsSelect(At(Tree(d), q).kind) ==> q in Selects(d)
  {
    BodySearchSorted(d, (e: Entry) => IsSelect(e.kind));
    forall q | InBody(d, q) && IsSelect(At(Tree(d), q).kind) ensures q in Selects(d) {
      BodySearchHas(d, (e: Entry) => IsSelect(e.kind), q);
    }
  }

  /** The fallback's marker is the first text child holding the id of the first
      `select`, in document order, that has one: no earlier `select` has such a
      child, and no earlier child of its own `select` is one. */
  lemma SelectMarkerFirst(d: Doc, name: string, q: Path)
    requires SelectMarker(d, name) == Some(q)
    ensures InBody(d, q) && |q| >= 3
    ensures forall p :: InBody(d, p) && IsSelect(At(Tree(d), p).kind) && Before(p, Parent(q)) ==>
      forall c :: 0 <= c < |At(Tree(d), p).children| ==> !IsTextOf(At(Tree(d), p).children[c], name)
    ensures forall c :: 0 <= c < Last(q) ==> !IsTextOf(ParentNode(d, q).children[c], name)
  {
    var i := SelectMarkerAt(d, name, q);
    EarlierSelects(d, name, i);
  }

  /** The fallback's marker as the scan finds it: a child of the `i`-th
      `select`, with no text child holding the id in any earlier one and no
      earlier child of its own `select` holding it. */
  lemma SelectMarkerAt(d: Doc, name: string, q: Path) returns (i: nat)
    requires SelectMarker(d, name) == Some(q)
    ensures InBody(d, q) && |q| >= 3 && i < |Selects(d)| && Parent(q) == Selects(d)[i]
    ensures forall k, c :: 0 <= k < i && 0 <= c < |At(Tree(d), Selects(d)[k]).children| ==>
      !IsTextOf(At(Tree(d), Selects(d)[k]).children[c], name)
    ensures forall c :: 0 <= c < Last(q) ==> !IsTextOf(ParentNode(d, q).children[c], name)
  {
    var sels := Selects(d);
    assert sels[0..] == sels;
    i := ScanSelectsAt(d, sels, name, 0);
    var t := TextChild(At(Tree(d), sels[i]).children, name, 0).value;
    assert q == sels[i] + [t];
    assert Parent(q) == sels[i] && Last(q) == t;
  }

  /** A `select` before the `i`-th one in document order is one of the first `i`. */
  lemma EarlierSelects(d: Doc, name: string, i: nat)
    requires i < |Selects(d)|
    requires forall k, c :: 0 <= k < i && 0 <= c < |At(Tree(d), Selects(d)[k]).children| ==>
      !IsTextOf(At(Tree(d), Selects(d)[k]).children[c], name)
    ensures forall p :: InBody(d, p) && IsSelect(At(Tree(d), p).kind) && Before(p, Selects(d)[i]) ==>
      forall c :: 0 <= c < |At(Tree(d), p).children| ==> !IsTextOf(At(Tree(d), p).children[c], name)
  {
    var sels := Selects(d);
    SelectsInOrder(d);
    forall p | InBody(d, p) && IsSelect(At(Tree(d), p).kind) && Before(p, sels[i])
      ensures forall c :: 0 <= c < |At(Tree(d), p).children| ==> !IsTextOf(At(Tree(d), p).children[c], name)
    {
      var k :| 0 <= k < |sels| && sels[k] == p;
      BeforeAsym(p, sels[i]);
      assert k < i;
    }
  }

  /** The loops of the fallback: over the `select` elements, then over the
      children of each. */
  method ScanSelectsForText(d: Doc, name: string) returns (r: Option<Path>)
    ensures r == SelectMarker(d, name)
  {
    var selects := Selects(d);
    var i := 0;
    while i < |selects|
      invariant 0 <= i <= |selects|
      invariant ScanSelects(d, selects, name, i) == ScanSelects(d, selects, name, 0)
    {
      var select := selects[i];
      var nodes := At(Tree(d), select).children;
      var j := 0;
      while j < |nodes|
        invariant 0 <= j <= |nodes|
        invariant TextChild(nodes, name, j) == TextChild(nodes, name, 0)
      {
        if IsTextOf(nodes[j], name) {
          return Some(select + [j]);
        }
        j := j + 1;
      }
      i := i + 1;
    }
    return None;
  }

  /** `getMarker` without ranges. */
  function LegacyMarker(d: Doc, name: string): (r: Option<Path>)
    ensures r.Some? ==> InBody(d, r.value)
  {
    var m := ById(d, name);
    if m.Some? then Some(RealNode(d, m.value)) else SelectMarker(d, name)
  }

  /** A marker is missing exactly when no element carries its id and no
      `select` holds it as text. */
  lemma LegacyMarkerMissing(d: Doc, name: string)
    ensures LegacyMarker(d, name).None? <==>
      && (forall q :: InBody(d, q) ==> !(At(Tree(d), q).kind.Element? && At(Tree(d), q).kind.id == name))
      && (forall q :: InBody(d, q) && |q| >= 3 && IsTextOf(At(Tree(d), q), name) ==>
            !IsSelect(ParentNode(d, q).kind))
  {
    SelectMarkerComplete(d, name);
    assert LegacyMarker(d, name).None? <==> ById(d, name).None? && SelectMarker(d, name).None?;
  }

  /** The id lookup wins over the fallback, and its result is the outermost
      node reached through nameless wrappers around the element with the id. */
  lemma LegacyMarkerById(d: Doc, name: string)
    requires ById(d, name).Some?
    ensures var q := ById(d, name).value;
      LegacyMarker(d, name) == Some(RealNode(d, q)) && IsPrefix(RealNode(d, q), q)
  {
  }

  /** `getMarker` without ranges, with its loops. */
  method GetLegacyMarker(d: Doc, name: string) returns (r: Option<Path>)
    ensures r == LegacyMarker(d, name)
  {
    var marker := ById(d, name);
    if marker.Some? {
      var top := ClimbToRealNode(d, marker.value);
      return Some(top);
    }
    r := ScanSelectsForText(d, name);
  }

  // ---------------------------------------------------------------------------
  // The comment cache of the range branch

  /** Comment text to the identity of the comment node it was last seen on. */
  type Cache = map<string, nat>

  function CommentText(k: NodeKind): string
    requires k.Comment?
  {
    k.data
  }

  /** The comments strictly inside the body, in document order (the tree walk
      over comment nodes). */
  function CommentPaths(d: Doc): (r: seq<Path>)
    ensures forall k :: 0 <= k < |r| ==> |r[k]| >= 2 && ValidPath(Tree(d), r[k]) && At(Tree(d), r[k]).kind.Comment?
  {
    var below := AllWhere(d.body.children, Some(d.body.kind), (e: Entry) => e.kind.Comment?);
    AllWhereSound(d.body.children, Some(d.body.kind), (e: Entry) => e.kind.Comment?);
    forall k | 0 <= k < |below| ensures InBody(d, Under(0, below)[k]) && At(Tree(d), Under(0, below)[k]).kind.Comment? {
      UnderAt(0, below, k);
      UnderOne(Tree(d), None, below[k]);
    }
    Under(0, below)
  }

  /** The walk lists every comment of the body, in document order. */
  lemma CommentPathsInOrder(d: Doc)
    ensures Sorted(CommentPaths(d))
    ensures forall q :: InBody(d, q) && At(Tree(d), q).kind.Comment? ==> q in CommentPaths(d)
  {
    BodySearchSorted(d, (e: Entry) => e.kind.Comment?);
    forall q | InBody(d, q) && At(Tree(d), q).kind.Comment? ensures q in CommentPaths(d) {
      BodySearchHas(d, (e: Entry) => e.kind.Comment?, q);
    }
  }

  /** Every comment on the way is recorded under its text, later ones
      overwriting earlier ones with the same text. */
  function Record(c: Cache, d: Doc, ps: seq<Path>): (r: Cache)
    requires forall k :: 0 <= k < |ps| ==> |ps[k]| >= 2 && ValidPath(Tree(d), ps[k]) && At(Tree(d), ps[k]).kind.Comment?
    decreases |ps|
  {
    if ps == [] then c
    else
      var n := At(Tree(d), ps[0]);
      Record(c[CommentText(n.kind) := n.uid], d, ps[1..])
  }

  /** After the walk, a text is cached exactly when it was cached before or some
      walked comment holds it; when none does, its entry is unchanged. */
  lemma {:induction false} RecordHas(c: Cache, d: Doc, ps: seq<Path>, name: string)
    requires forall k :: 0 <= k < |ps| ==> |ps[k]| >= 2 && ValidPath(Tree(d), ps[k]) && At(Tree(d), ps[k]).kind.Comment?
    ensures name in Record(c, d, ps) <==>
      name in c || exists k :: 0 <= k < |ps| && At(Tree(d), ps[k]).kind == Comment(name)
    ensures (forall k :: 0 <= k < |ps| ==> At(Tree(d), ps[k]).kind != Comment(name)) && name in c ==>
      Record(c, d, ps)[name] == c[name]
    decreases |ps|
  {
    if ps != [] {
      var n := At(Tree(d), ps[0]);
      var c' := c[CommentText(n.kind) := n.uid];
      RecordHas(c', d, ps[1..], name);
      assert forall k :: 1 <= k < |ps| ==> ps[1..][k - 1] == ps[k];
      if name in Record(c, d, ps) && name !in c && name != CommentText(n.kind) {
        var k :| 0 <= k < |ps[1..]| && At(Tree(d), ps[1..][k]).kind == Comment(name);
        assert ps[k + 1] == ps[1..][k];
      }
      if exists k :: 0 <= k < |ps| && At(Tree(d), ps[k]).kind == Comment(name) {
        var k :| 0 <= k < |ps| && At(Tree(d), ps[k]).kind == Comment(name);
        if k > 0 {
          assert ps[1..][k - 1] == ps[k];
        }
      }
    }
  }

  /** A text that a walked comment holds maps to the last such comment's
      identity. */
  lemma {:induction false} RecordLast(c: Cache, d: Doc, ps: seq<Path>, name: string)
    requires forall k :: 0 <= k < |ps| ==> |ps[k]| >= 2 && ValidPath(Tree(d), ps[k]) && At(Tree(d), ps[k]).kind.Comment?
    ensures forall k :: 0 <= k < |ps| && At(Tree(d), ps[k]).kind == Comment(name) && LastOf(d, ps, name, k) ==>
      name in Record(c, d, ps) && Record(c, d, ps)[name] == At(Tree(d), ps[k]).uid
    decreases |ps|
  {
    if ps != [] {
      var n := At(Tree(d), ps[0]);
      var c' := c[CommentText(n.kind) := n.uid];
      RecordLast(c', d, ps[1..], name);
      RecordHas(c', d, ps[1..], name);
      forall k | 0 <= k < |ps| && At(Tree(d), ps[k]).kind == Comment(name) && LastOf(d, ps, name, k)
        ensures name in Record(c, d, ps) && Record(c, d, ps)[name] == At(Tree(d), ps[k]).uid
      {
        if k > 0 {
          assert ps[1..][k - 1] == ps[k];
          assert forall k' :: k - 1 < k' < |ps| - 1 ==> ps[1..][k'] == ps[k' + 1];
        } else {
          assert forall k' :: 0 <= k' < |ps| - 1 ==> ps[1..][k'] == ps[k' + 1];
        }
      }
    }
  }

  /** No walked comment after index `k` holds `name`. */
  predicate LastOf(d: Doc, ps: seq<Path>, name: string, k: nat)
    requires forall k :: 0 <= k < |ps| ==> |ps[k]| >= 2 && ValidPath(Tree(d), ps[k])
  {
    forall k' :: k < k' < |ps| ==> At(Tree(d), ps[k']).kind != Comment(name)
  }

  /** The cache after a lookup: unchanged on a hit, filled by the walk on a miss. */
  function CacheAfter(d: Doc, c: Cache, name: string): Cache {
    if name in c then c else Record(c, d, CommentPaths(d))
  }

  /** `getMarker` with ranges: the resolved comment (if the body still contains
      it) and the cache afterwards. */
  function RangeMarker(d: Doc, c: Cache, name: string): (r: (Option<Path>, Cache))
    ensures r.1 == CacheAfter(d, c, name)
    ensures r.0.Some? ==> name in r.1 && InBody(d, r.0.value) && At(Tree(d), r.0.value).uid == r.1[name]
    ensures r.0.None? <==> name !in r.1 || !ContainsUid(d, r.1[name])
  {
    var c' := CacheAfter(d, c, name);
    if name in c' then (PathOfUid(d, c'[name]), c') else (None, c')
  }

  /** On a miss, the lookup finds a node exactly when the body holds a comment
      with that text, and the node it finds is such a comment. */
  lemma RangeMarkerMiss(d: Doc, c: Cache, name: string)
    requires name !in c && DocValid(d)
    ensures RangeMarker(d, c, name).0.Some? <==>
      exists q :: InBody(d, q) && At(Tree(d), q).kind == Comment(name)
    ensures RangeMarker(d, c, name).0.Some? ==>
      At(Tree(d), RangeMarker(d, c, name).0.value).kind == Comment(name)
  {
    var ps := CommentPaths(d);
    RecordHas(c, d, ps, name);
    RecordLast(c, d, ps, name);
    var r := RangeMarker(d, c, name);
    if exists q :: InBody(d, q) && At(Tree(d), q).kind == Comment(name) {
      var q :| InBody(d, q) && At(Tree(d), q).kind == Comment(name);
      BodyPath(d, q);
      var below := AllWhere(d.body.children, Some(d.body.kind), (e: Entry) => e.kind.Comment?);
      var i := AllWhereHasPath(d.body.children, Some(d.body.kind), (e: Entry) => e.kind.Comment?, q[1..]);
      UnderAt(0, below, i);
      assert ps[i] == q;
      var k := LastWith(d, ps, name, i);
      assert |ps[k]| >= 2 && ValidPath(Tree(d), ps[k]) && At(Tree(d), ps[k]).uid == Record(c, d, ps)[name];
      assert r.0.Some?;
      SameUidSameKind(d, r.0.value, ps[k]);
    }
  }

  /** On a miss, the node found is the last comment with that text in document
      order: the walk overwrites the entry at every such comment. */
  lemma RangeMarkerMissLast(d: Doc, c: Cache, name: string, q: Path)
    requires name !in c && DocValid(d) && RangeMarker(d, c, name).0 == Some(q)
    ensures At(Tree(d), q).kind == Comment(name)
    ensures forall q' :: InBody(d, q') && Before(q, q') ==> At(Tree(d), q').kind != Comment(name)
  {
    RangeMarkerMiss(d, c, name);
    var ps := CommentPaths(d);
    CommentPathsInOrder(d);
    var i :| 0 <= i < |ps| && ps[i] == q;
    var k := LastWith(d, ps, name, i);
    RecordLast(c, d, ps, name);
    UidFixesPath(d, q, ps[k]);
    NoLaterComment(d, ps, name, k);
  }

  /** The last of the sorted walk's comments with a text has no comment with
      that text after it in document order. */
  lemma NoLaterComment(d: Doc, ps: seq<Path>, name: string, k: nat)
    requires ps == CommentPaths(d) && k < |ps| && LastOf(d, ps, name, k)
    ensures forall q' :: InBody(d, q') && Before(ps[k], q') ==> At(Tree(d), q').kind != Comment(name)
  {
    CommentPathsInOrder(d);
    forall q' | InBody(d, q') && Before(ps[k], q') ensures At(Tree(d), q').kind != Comment(name) {
      if At(Tree(d), q').kind == Comment(name) {
        var j :| 0 <= j < |ps| && ps[j] == q';
        BeforeAsym(ps[k], q');
      }
    }
  }

  /** The last walked comment with a given text, at or after `from`. */
  lemma {:induction false} LastWith(d: Doc, ps: seq<Path>, name: string, from: nat) returns (k: nat)
    requires forall k :: 0 <= k < |ps| ==> |ps[k]| >= 2 && ValidPath(Tree(d), ps[k]) && At(Tree(d), ps[k]).kind.Comment?
    requires from < |ps| && At(Tree(d), ps[from]).kind == Comment(name)
    ensures from <= k < |ps| && At(Tree(d), ps[k]).kind == Comment(name)
    ensures LastOf(d, ps, name, k)
    decreases |ps| - from
  {
    if exists j :: from < j < |ps| && At(Tree(d), ps[j]).kind == Comment(name) {
      var j :| from < j < |ps| && At(Tree(d), ps[j]).kind == Comment(name);
      k := LastWith(d, ps, name, j);
    } else {
      k := from;
    }
  }

  /** In a well-formed document, two positions holding the same identity hold
      nodes of the same kind. */
  lemma SameUidSameKind(d: Doc, p: Path, q: Path)
    requires DocValid(d) && ValidPath(Tree(d), p) && ValidPath(Tree(d), q)
    requires At(Tree(d), p).uid == At(Tree(d), q).uid
    ensures At(Tree(d), p).kind == At(Tree(d), q).kind
  {
    EntryAtIn(Tree(d), p, None);
    EntryAtIn(Tree(d), q, None);
  }

  /** A cached entry whose node has left the body hides every comment with the
      same text that is in the body now: stale entries are never evicted. */
  lemma StaleEntryHides(d: Doc, c: Cache, name: string)
    requires name in c && !ContainsUid(d, c[name])
    ensures RangeMarker(d, c, name).0.None? && RangeMarker(d, c, name).1 == c
  {
  }

  // ---------------------------------------------------------------------------
  // Repairing parentage

  /** Where `q` ends up when the node at `removed` is taken out, seen through
      the parent: positions under a different parent keep their last index. */
  lemma ShiftParent(q: Path, removed: Path)
    requires |q| >= 2 && |removed| >= 2 && Parent(q) != Parent(removed)
    ensures ShiftAfterRemove(q, removed) == ShiftAfterRemove(Parent(q), removed) + [Last(q)]
  {
  }

  /** `fixParentage(start, end)`: when the two markers have different parents,
      `start` moves to the front of `end`'s parent (`insertBefore` with the first
      child as reference). The host refuses when `start` contains `end`'s
      parent. Results: the document and the new positions of start and end. */
  function FixParentage(d: Doc, s: Path, e: Path): (r: Result<(Doc, Path, Path)>)
    requires InBody(d, s) && InBody(d, e)
    ensures Parent(s) == Parent(e) ==> r == Ok((d, s, e))
    ensures r.Fail? <==> Parent(s) != Parent(e) && IsPrefix(s, Parent(e))
    ensures r.Fail? ==> r.error == HierarchyRequest
    ensures r.Ok? ==>
      var (d', s', e') := r.value;
      && InBody(d', s') && InBody(d', e') && Parent(s') == Parent(e')
      && At(Tree(d'), s') == At(Tree(d), s)
      && At(Tree(d'), e').uid == At(Tree(d), e).uid
      && At(Tree(d'), e').kind == At(Tree(d), e).kind
      && d'.nextUid == d.nextUid
      && (Parent(s) != Parent(e) ==> Last(s') == 0 && Last(e') == Last(e) + 1)
  {
    if Parent(s) == Parent(e) then Ok((d, s, e))
    else if IsPrefix(s, Parent(e)) then Fail(HierarchyRequest)
    else
      var t := Tree(d);
      var pe' := ShiftAfterRemove(Parent(e), s);
      RemovedKeepsParent(t, s, e);
      var r := RemoveAt(t, s);
      var kids := At(r, pe').children;
      var t' := SetKidsAt(r, pe', [At(t, s)] + kids);
      InsertFront(r, pe', At(t, s), Last(e));
      var s': Path := pe' + [0];
      var e': Path := pe' + [Last(e) + 1];
      assert Parent(s') == pe' && Parent(e') == pe';
      Ok((Doc(t'[0], d.nextUid), s', e'))
  }

  /** When the parents differ, the new parent's children are `start` followed
      by what `end`'s parent holds once `start` is taken out. */
  lemma FixParentageFront(d: Doc, s: Path, e: Path, d': Doc, s': Path, e': Path)
    requires InBody(d, s) && InBody(d, e) && Parent(s) != Parent(e)
    requires FixParentage(d, s, e) == Ok((d', s', e'))
    ensures Parent(s') == ShiftAfterRemove(Parent(e), s) && ValidPath(RemoveAt(Tree(d), s), Parent(s'))
    ensures ParentNode(d', s').children == [At(Tree(d), s)] + At(RemoveAt(Tree(d), s), Parent(s')).children
  {
    var t := Tree(d);
    var pe' := ShiftAfterRemove(Parent(e), s);
    RemovedKeepsParent(t, s, e);
    var r := RemoveAt(t, s);
    var t' := SetKidsAt(r, pe', [At(t, s)] + At(r, pe').children);
    assert d' == Doc(t'[0], d.nextUid) && s' == pe' + [0];
    assert Tree(d') == t';
    assert Parent(s') == pe';
  }

  /** Away from the two lines of ancestors that the move touches (start's and
      end's parent's), and outside the moved node, every node stays whole at
      its position shifted by the removal of start. */
  lemma FixParentageElsewhere(d: Doc, s: Path, e: Path, d': Doc, s': Path, e': Path, q: Path)
    requires InBody(d, s) && InBody(d, e) && Parent(s) != Parent(e)
    requires FixParentage(d, s, e) == Ok((d', s', e'))
    requires ValidPath(Tree(d), q) && !IsPrefix(s, q) && !IsPrefix(q, s)
    requires !IsPrefix(Parent(e), q) && !IsPrefix(q, Parent(e))
    ensures ValidPath(Tree(d'), ShiftAfterRemove(q, s))
    ensures At(Tree(d'), ShiftAfterRemove(q, s)) == At(Tree(d), q)
  {
    var t := Tree(d);
    var pe := Parent(e);
    var pe' := ShiftAfterRemove(pe, s);
    var q' := ShiftAfterRemove(q, s);
    RemovedKeepsParent(t, s, e);
    var r := RemoveAt(t, s);
    var cs := [At(t, s)] + At(r, pe').children;
    var t' := SetKidsAt(r, pe', cs);
    assert d' == Doc(t'[0], d.nextUid);
    assert Tree(d') == t';
    PrefixValid(t, e, |e| - 1);
    RemoveElsewhere(t, s, q);
    ShiftKeepsPrefix(pe, q, s);
    ShiftKeepsPrefix(q, pe, s);
    assert |pe'| == |pe| && |q'| == |q|;
    SetKidsAtElsewhere(r, pe', cs, q');
  }

  /** After `start` is taken out, `end`'s parent is still there (possibly at a
      shifted position) and still has `end` at the same index. */
  lemma RemovedKeepsParent(t: seq<Node>, s: Path, e: Path)
    requires ValidPath(t, s) && ValidPath(t, e) && |s| >= 2 && |e| >= 2
    requires Parent(s) != Parent(e) && !IsPrefix(s, Parent(e))
    ensures var pe' := ShiftAfterRemove(Parent(e), s);
      |pe'| == |e| - 1 &&
      ValidPath(RemoveAt(t, s), pe') && Last(e) < |At(RemoveAt(t, s), pe').children| &&
      At(RemoveAt(t, s), pe').children[Last(e)].uid == At(t, e).uid &&
      At(RemoveAt(t, s), pe').children[Last(e)].kind == At(t, e).kind
  {
    var pe := Parent(e);
    PrefixValid(t, e, |e| - 1);
    assert pe + [Last(e)] == e;
    NotPrefixOfChild(s, e);
    var r := RemoveAt(t, s);
    RemoveShift(t, s, pe);
    RemoveShift(t, s, e);
    ShiftParent(e, s);
    var pe' := ShiftAfterRemove(pe, s);
    AtChild(r, pe', Last(e));
  }

  lemma NotPrefixOfChild(s: Path, e: Path)
    requires |s| >= 1 && |e| >= 1 && Parent(s) != Parent(e) && !IsPrefix(s, Parent(e))
    ensures !IsPrefix(s, e)
  {
    if |s| < |e| {
      assert Parent(e)[..|s|] == e[..|s|];
    } else if |s| == |e| {
      assert IsPrefix(s, e) ==> s == e;
    }
  }

  /** Putting a node in front of a child list: it becomes the first child and
      every former child moves one index on. */
  lemma InsertFront(r: seq<Node>, p: Path, m: Node, k: nat)
    requires ValidPath(r, p) && k < |At(r, p).children|
    ensures ValidPath(SetKidsAt(r, p, [m] + At(r, p).children), p + [0])
    ensures At(SetKidsAt(r, p, [m] + At(r, p).children), p + [0]) == m
    ensures ValidPath(SetKidsAt(r, p, [m] + At(r, p).children), p + [k + 1])
    ensures At(SetKidsAt(r, p, [m] + At(r, p).children), p + [k + 1]) == At(r, p).children[k]
  {
    var t' := SetKidsAt(r, p, [m] + At(r, p).children);
    AtChild(t', p, 0);
    AtChild(t', p, k + 1);
  }
}
