/** Edits of the document the engine performs, at the level of one child list:
    replacing a run of children by freshly created nodes, taking one node out,
    and moving a node to the front of another child list. Each keeps node
    identities unique. */
module Edits {
  import opened Outcomes
  import opened Dom
  import Locators

  /** The document with the children of the node at `p` replaced by `cs`. */
  function SetKids(d: Doc, p: Path, cs: seq<Node>): (r: Doc)
    requires ValidPath(Tree(d), p)
    ensures Tree(r) == SetKidsAt(Tree(d), p, cs) && r.nextUid == d.nextUid
    ensures ValidPath(Tree(r), p) && At(Tree(r), p) == At(Tree(d), p).(children := cs)
  {
    var t := SetKidsAt(Tree(d), p, cs);
    assert [t[0]] == t;
    Doc(t[0], d.nextUid)
  }

  /** Children `a` up to `b` of the node at `p` replaced by `frag`, whose nodes
      the host creates with fresh identities. */
  function Splice(d: Doc, p: Path, a: nat, b: nat, frag: seq<Node>): (r: Doc)
    requires ValidPath(Tree(d), p) && a <= b <= |At(Tree(d), p).children|
    ensures var kids := At(Tree(d), p).children;
      var renamed := Renumber(frag, d.nextUid);
      && ValidPath(Tree(r), p)
      && At(Tree(r), p) == At(Tree(d), p).(children := kids[..a] + renamed.0 + kids[b..])
      && r.nextUid == renamed.1 && Anon(renamed.0) == Anon(frag)
  {
    var kids := At(Tree(d), p).children;
    var renamed := Renumber(frag, d.nextUid);
    var r := SetKids(d, p, kids[..a] + renamed.0 + kids[b..]);
    r.(nextUid := renamed.1)
  }

  /** The body keeps its kind through any child-list edit. */
  lemma BodyKindKept(d: Doc, p: Path, cs: seq<Node>)
    requires ValidPath(Tree(d), p)
    ensures SetKidsAt(Tree(d), p, cs)[0].kind == d.body.kind
  {
    SetKidsAtElsewhere(Tree(d), p, cs, [0]);
  }

  /** The entries of a child list split at any two points. */
  lemma EntriesSplit(kids: seq<Node>, a: nat, b: nat, k: Option<NodeKind>)
    requires a <= b <= |kids|
    ensures Entries(kids, k) == Entries(kids[..a], k) + Entries(kids[a..b], k) + Entries(kids[b..], k)
  {
    assert kids == kids[..a] + kids[a..b] + kids[b..];
    EntriesAppend(kids[..a] + kids[a..b], kids[b..], k);
    EntriesAppend(kids[..a], kids[a..b], k);
  }

  /** The entries of a child list around one child. */
  lemma EntriesAround(kids: seq<Node>, i: nat, k: Option<NodeKind>)
    requires i < |kids|
    ensures Entries(kids, k) == Entries(kids[..i], k) + NodeEntries(kids[i], k) + Entries(kids[i + 1..], k)
  {
    var front, back := kids[..i], kids[i + 1..];
    assert kids == front + [kids[i]] + back;
    EntriesAppend(front + [kids[i]], back, k);
    EntriesAppend(front, [kids[i]], k);
    EntriesSingle(kids[i], k);
  }

  /** What replacing children `a..b` by `cs` does to the entries of the tree:
      the old run's entries go, the new children's come. */
  lemma EntriesReplaceRun(d: Doc, p: Path, a: nat, b: nat, cs: seq<Node>)
    requires ValidPath(Tree(d), p) && a <= b <= |At(Tree(d), p).children|
    ensures var kids := At(Tree(d), p).children;
      var k := Some(At(Tree(d), p).kind);
      && Entries(kids[a..b], k) <= AllEntries(d)
      && AllEntries(SetKids(d, p, kids[..a] + cs + kids[b..]))
           == AllEntries(d) - Entries(kids[a..b], k) + Entries(cs, k)
  {
    var t := Tree(d);
    var kids := At(t, p).children;
    var k := Some(At(t, p).kind);
    var cs' := kids[..a] + cs + kids[b..];
    EntriesSetKids(t, p, cs', None);
    EntriesSplit(kids, a, b, k);
    EntriesAppend(kids[..a] + cs, kids[b..], k);
    EntriesAppend(kids[..a], cs, k);
    SubtreeEntries(t, p, None);
    Rebalance(AllEntries(SetKids(d, p, cs')), AllEntries(d), Entries(kids[..a], k),
              Entries(kids[a..b], k), Entries(kids[b..], k), Entries(cs, k));
  }

  /** Deleting children `a..b` takes exactly the run's entries out. */
  lemma EntriesDeleteRun(d: Doc, p: Path, a: nat, b: nat)
    requires ValidPath(Tree(d), p) && a <= b <= |At(Tree(d), p).children|
    ensures var kids := At(Tree(d), p).children;
      var k := Some(At(Tree(d), p).kind);
      && Entries(kids[a..b], k) <= AllEntries(d)
      && AllEntries(SetKids(d, p, kids[..a] + kids[b..])) == AllEntries(d) - Entries(kids[a..b], k)
  {
    var kids := At(Tree(d), p).children;
    EntriesReplaceRun(d, p, a, b, []);
    assert kids[..a] + [] + kids[b..] == kids[..a] + kids[b..];
  }

  /** Multiset arithmetic behind a run replacement. */
  lemma Rebalance(n: multiset<Entry>, t: multiset<Entry>, x: multiset<Entry>, m: multiset<Entry>,
                  y: multiset<Entry>, c: multiset<Entry>)
    requires n + (x + m + y) == t + (x + c + y) && x + m + y <= t
    ensures m <= t && n == t - m + c
  {
    forall e ensures n[e] == (t - m + c)[e] {
      assert (n + (x + m + y))[e] == (t + (x + c + y))[e];
      assert (x + m + y)[e] <= t[e];
    }
  }

  /** Replacing a run of children by fresh nodes keeps a document well formed. */
  lemma SpliceValid(d: Doc, p: Path, a: nat, b: nat, frag: seq<Node>)
    requires DocValid(d) && ValidPath(Tree(d), p) && a <= b <= |At(Tree(d), p).children|
    ensures DocValid(Splice(d, p, a, b, frag))
  {
    var kids := At(Tree(d), p).children;
    var k := Some(At(Tree(d), p).kind);
    var renamed := Renumber(frag, d.nextUid);
    EntriesReplaceRun(d, p, a, b, renamed.0);
    RenumberFresh(frag, d.nextUid, k);
    UniqueAfterSwap(AllEntries(d), Entries(kids[a..b], k), Entries(renamed.0, k), d.nextUid, renamed.1);
    BodyKindKept(d, p, kids[..a] + renamed.0 + kids[b..]);
  }

  /** Deleting a run of children keeps a document well formed. */
  lemma DeleteRunValid(d: Doc, p: Path, a: nat, b: nat)
    requires DocValid(d) && ValidPath(Tree(d), p) && a <= b <= |At(Tree(d), p).children|
    ensures var kids := At(Tree(d), p).children;
      DocValid(SetKids(d, p, kids[..a] + kids[b..]))
  {
    var kids := At(Tree(d), p).children;
    var k := Some(At(Tree(d), p).kind);
    EntriesDeleteRun(d, p, a, b);
    UniqueAfterSwap(AllEntries(d), Entries(kids[a..b], k), multiset{}, d.nextUid, d.nextUid);
    BodyKindKept(d, p, kids[..a] + kids[b..]);
  }

  /** Deleting a run of children only takes entries away. */
  lemma DeleteShrinks(d: Doc, p: Path, a: nat, b: nat)
    requires ValidPath(Tree(d), p) && a <= b <= |At(Tree(d), p).children|
    ensures var kids := At(Tree(d), p).children;
      AllEntries(SetKids(d, p, kids[..a] + kids[b..])) <= AllEntries(d)
  {
    EntriesDeleteRun(d, p, a, b);
  }

  /** A node that was in a deleted run is no longer in the body, provided
      identities were unique: no entry of the tree has its identity. */
  lemma DeletedGone(d: Doc, p: Path, a: nat, b: nat, i: nat)
    requires DocValid(d) && ValidPath(Tree(d), p) && a <= i < b <= |At(Tree(d), p).children|
    ensures var kids := At(Tree(d), p).children;
      var d' := SetKids(d, p, kids[..a] + kids[b..]);
      !HasUid(AllEntries(d'), kids[i].uid) && !ContainsUid(d', kids[i].uid)
  {
    var kids := At(Tree(d), p).children;
    var k := Some(At(Tree(d), p).kind);
    var d' := SetKids(d, p, kids[..a] + kids[b..]);
    EntriesDeleteRun(d, p, a, b);
    var run := kids[a..b];
    assert run[i - a] == kids[i];
    RunMemberGone(AllEntries(d), run, k, AllEntries(d'), i - a);
    AbsentNotContained(d', kids[i].uid);
  }

  /** Taking a run's entries out of a tree with unique identities leaves no
      entry with the identity of any node of the run. */
  lemma RunMemberGone(t: multiset<Entry>, run: seq<Node>, kp: Option<NodeKind>, n: multiset<Entry>, j: nat)
    requires UniqueUids(t) && j < |run| && Entries(run, kp) <= t && n == t - Entries(run, kp)
    ensures !HasUid(n, run[j].uid)
  {
    EntryAtIn(run, [j], kp);
    TakenOut(t, Entries(run, kp), EntryAt(run, [j], kp), n);
  }

  /** An identity no entry has is on no node of the body. */
  lemma AbsentNotContained(d: Doc, u: nat)
    requires !HasUid(AllEntries(d), u)
    ensures !ContainsUid(d, u)
  {
    forall q | InBody(d, q) ensures At(Tree(d), q).uid != u {
      EntryAtIn(Tree(d), q, None);
    }
  }

  /** Splicing in fresh nodes brings back no identity the tree had lost. */
  lemma SpliceKeepsAbsent(d: Doc, p: Path, a: nat, b: nat, frag: seq<Node>, u: nat)
    requires ValidPath(Tree(d), p) && a <= b <= |At(Tree(d), p).children|
    requires !HasUid(AllEntries(d), u) && u < d.nextUid
    ensures !HasUid(AllEntries(Splice(d, p, a, b, frag)), u)
  {
    var k := Some(At(Tree(d), p).kind);
    var renamed := Renumber(frag, d.nextUid);
    EntriesReplaceRun(d, p, a, b, renamed.0);
    RenumberFresh(frag, d.nextUid, k);
  }

  /** A node of the body has its entry among the document's entries. */
  lemma UidInEntries(d: Doc, u: nat)
    requires ContainsUid(d, u)
    ensures HasUid(AllEntries(d), u)
  {
    var q :| InBody(d, q) && At(Tree(d), q).uid == u;
    EntryAtIn(Tree(d), q, None);
  }

  /** Taking an entry out of a multiset with unique identities leaves none with
      its identity. */
  lemma TakenOut(t: multiset<Entry>, m: multiset<Entry>, x: Entry, n: multiset<Entry>)
    requires UniqueUids(t) && m <= t && x in m && n == t - m
    ensures !HasUid(n, x.uid)
  {
  }

  /** Removing the one node at `q` from its parent. */
  function Remove(d: Doc, q: Path): (r: Doc)
    requires InBody(d, q)
    ensures ValidPath(Tree(d), Parent(q)) && ValidPath(Tree(r), Parent(q))
    ensures Last(q) < |At(Tree(d), Parent(q)).children|
    ensures r == SetKids(d, Parent(q), Without(At(Tree(d), Parent(q)).children, Last(q)))
  {
    PrefixValid(Tree(d), q, |q| - 1);
    AtChild(Tree(d), Parent(q), Last(q));
    assert Parent(q) + [Last(q)] == q;
    SetKids(d, Parent(q), Without(At(Tree(d), Parent(q)).children, Last(q)))
  }

  /** Removing one node keeps a document well formed and takes the node out of
      the body. */
  lemma RemoveValid(d: Doc, q: Path)
    requires DocValid(d) && InBody(d, q)
    ensures DocValid(Remove(d, q)) && !ContainsUid(Remove(d, q), At(Tree(d), q).uid)
  {
    RemoveGone(d, q);
    AbsentNotContained(Remove(d, q), At(Tree(d), q).uid);
  }

  /** Replacing, in a multiset of entries with unique identities, one entry by
      another with the same identity keeps identities unique. */
  lemma UniqueReplace(m: multiset<Entry>, x: Entry, y: Entry, bound: nat)
    requires UniqueUids(m) && UidsBelow(m, bound) && x in m && x.uid == y.uid
    ensures UniqueUids(m - multiset{x} + multiset{y}) && UidsBelow(m - multiset{x} + multiset{y}, bound)
  {
    var r := m - multiset{x} + multiset{y};
    forall e ensures r[e] <= 1 {
      if e == y && y != x {
        assert e !in m;
      }
    }
  }

  /** Moving the start marker under the end marker's parent keeps a document
      well formed: the moved node keeps its identity and its subtree, and only
      its recorded parent changes. */
  lemma FixParentageValid(d: Doc, s: Path, e: Path)
    requires DocValid(d) && InBody(d, s) && InBody(d, e)
    ensures Locators.FixParentage(d, s, e).Ok? ==> DocValid(Locators.FixParentage(d, s, e).value.0)
  {
    if Parent(s) != Parent(e) && !IsPrefix(s, Parent(e)) {
      var t := Tree(d);
      var r := RemoveAt(t, s);
      var pe' := ShiftAfterRemove(Parent(e), s);
      Locators.RemovedKeepsParent(t, s, e);
      var t' := SetKidsAt(r, pe', [At(t, s)] + At(r, pe').children);
      assert Locators.FixParentage(d, s, e).value.0 == Doc(t'[0], d.nextUid);
      MoveValid(d, s, pe');
      assert [t'[0]] == t';
    }
  }

  /** Moving the start marker changes what the tree holds only in the recorded
      parent of the moved node: it is now recorded under end's parent's kind. */
  lemma FixParentageEntries(d: Doc, s: Path, e: Path, d': Doc, s': Path, e': Path)
    requires InBody(d, s) && InBody(d, e) && Parent(s) != Parent(e)
    requires Locators.FixParentage(d, s, e) == Ok((d', s', e'))
    ensures InBody(d', s')
    ensures EntryAt(Tree(d'), s', None) == EntryAt(Tree(d), s, None).(parent := Some(ParentNode(d, e).kind))
    ensures AllEntries(d') == AllEntries(d) - multiset{EntryAt(Tree(d), s, None)} + multiset{EntryAt(Tree(d'), s', None)}
  {
    var t := Tree(d);
    var m := At(t, s);
    var pe := Parent(e);
    var pe' := ShiftAfterRemove(pe, s);
    Locators.RemovedKeepsParent(t, s, e);
    PrefixValid(t, e, |e| - 1);
    RemoveShift(t, s, pe);
    var r := RemoveAt(t, s);
    var kids := At(r, pe').children;
    var t' := SetKidsAt(r, pe', [m] + kids);
    assert d' == Doc(t'[0], d.nextUid) && s' == pe' + [0];
    assert Tree(d') == t';
    RemoveEntries(t, s);
    FrontEntries(r, pe', m);
    ParentOf(d, s);
    ParentKindOfChild(t, Parent(s), Last(s), None);
    ParentKindOfChild(t', pe', 0, None);
    var x := Entry(m.uid, m.kind, Some(At(t, Parent(s)).kind));
    var y := Entry(m.uid, m.kind, Some(At(r, pe').kind));
    Move(Entries(r, None), Entries(t, None), Entries(t', None), x, y, Entries(m.children, Some(m.kind)));
  }

  /** Taking the node at `s` out and putting it in front of the children at `p`
      keeps identities unique and the body's kind. */
  lemma MoveValid(d: Doc, s: Path, p: Path)
    requires DocValid(d) && ValidPath(Tree(d), s) && |s| >= 2 && ValidPath(RemoveAt(Tree(d), s), p)
    ensures var r := RemoveAt(Tree(d), s);
      var t' := SetKidsAt(r, p, [At(Tree(d), s)] + At(r, p).children);
      && UniqueUids(Entries(t', None)) && UidsBelow(Entries(t', None), d.nextUid)
      && t'[0].kind == d.body.kind
  {
    var t := Tree(d);
    var m := At(t, s);
    RemoveEntries(t, s);
    var kp := Some(At(t, Parent(s)).kind);
    var r := RemoveAt(t, s);
    var kids := At(r, p).children;
    var ke := Some(At(r, p).kind);
    var t' := SetKidsAt(r, p, [m] + kids);
    FrontEntries(r, p, m);
    var x := Entry(m.uid, m.kind, kp);
    var y := Entry(m.uid, m.kind, ke);
    Move(Entries(r, None), Entries(t, None), Entries(t', None), x, y, Entries(m.children, Some(m.kind)));
    UniqueReplace(Entries(t, None), x, y, d.nextUid);
    SetKidsAtElsewhere(r, p, [m] + kids, [0]);
  }

  /** Taking a node out trades away exactly its subtree's entries. */
  lemma RemoveEntries(t: seq<Node>, s: Path)
    requires ValidPath(t, s) && |s| >= 2
    ensures ValidPath(t, Parent(s))
    ensures Entries(RemoveAt(t, s), None) + NodeEntries(At(t, s), Some(At(t, Parent(s)).kind)) == Entries(t, None)
    ensures ValidPath(RemoveAt(t, s), [0]) && RemoveAt(t, s)[0].kind == t[0].kind
  {
    var ps := Parent(s);
    var i := Last(s);
    PrefixValid(t, s, |s| - 1);
    AtChild(t, ps, i);
    assert ps + [i] == s;
    RemoveChildEntries(t, ps, i);
    SetKidsAtElsewhere(t, ps, Without(At(t, ps).children, i), [0]);
  }

  lemma RemoveChildEntries(t: seq<Node>, p: Path, i: nat)
    requires ValidPath(t, p) && i < |At(t, p).children|
    ensures var kids := At(t, p).children;
      Entries(SetKidsAt(t, p, Without(kids, i)), None) + NodeEntries(kids[i], Some(At(t, p).kind))
        == Entries(t, None)
  {
    var kp := Some(At(t, p).kind);
    var kids := At(t, p).children;
    var w := Without(kids, i);
    EntriesSetKids(t, p, w, None);
    EntriesAround(kids, i, kp);
    var before := Entries(kids[..i], kp);
    var after := Entries(kids[i + 1..], kp);
    assert Entries(w, kp) == before + after by {
      EntriesAppend(kids[..i], kids[i + 1..], kp);
    }
    CancelRight(Entries(SetKidsAt(t, p, w), None), Entries(kids, kp), Entries(t, None),
                NodeEntries(kids[i], kp), before + after);
  }

  /** Putting a node in front of a child list adds exactly its subtree's entries. */
  lemma FrontEntries(r: seq<Node>, p: Path, m: Node)
    requires ValidPath(r, p)
    ensures Entries(SetKidsAt(r, p, [m] + At(r, p).children), None)
         == Entries(r, None) + NodeEntries(m, Some(At(r, p).kind))
  {
    var kids := At(r, p).children;
    var ke := Some(At(r, p).kind);
    EntriesSetKids(r, p, [m] + kids, None);
    EntriesAppend([m], kids, ke);
    EntriesSingle(m, ke);
    CancelRight(Entries(r, None), Entries([m] + kids, ke), Entries(SetKidsAt(r, p, [m] + kids), None),
                NodeEntries(m, ke), Entries(kids, ke));
  }

  /** `a + all == b + rest` where `all` is `n` plus `rest`, so `a + n == b`. */
  lemma CancelRight(a: multiset<Entry>, all: multiset<Entry>, b: multiset<Entry>, n: multiset<Entry>,
                    rest: multiset<Entry>)
    requires a + all == b + rest && (forall z :: all[z] == n[z] + rest[z])
    ensures a + n == b
  {
    forall z ensures (a + n)[z] == b[z] {
      assert (a + all)[z] == (b + rest)[z];
    }
  }

  /** Multiset arithmetic behind a move: the node's own entry is traded, its
      subtree's entries stay. */
  lemma Move(er: multiset<Entry>, et: multiset<Entry>, et': multiset<Entry>, x: Entry, y: Entry,
             sub: multiset<Entry>)
    requires er + (multiset{x} + sub) == et
    requires et' == er + (multiset{y} + sub)
    ensures x in et && et' == et - multiset{x} + multiset{y}
  {
    forall z ensures et'[z] == (et - multiset{x} + multiset{y})[z] {
      assert (er + (multiset{x} + sub))[z] == et[z];
    }
  }

  /** Removing one node trades away its identity and adds none. */
  lemma RemoveGone(d: Doc, q: Path)
    requires DocValid(d) && InBody(d, q)
    ensures DocValid(Remove(d, q))
    ensures !HasUid(AllEntries(Remove(d, q)), At(Tree(d), q).uid)
    ensures forall u :: HasUid(AllEntries(Remove(d, q)), u) ==> HasUid(AllEntries(d), u)
  {
    var p := Parent(q);
    var k := Last(q);
    ParentOf(d, q);
    var kids := At(Tree(d), p).children;
    var kp := Some(At(Tree(d), p).kind);
    var r := Remove(d, q);
    assert r == SetKids(d, p, kids[..k] + [] + kids[k + 1..]) by {
      assert Without(kids, k) == kids[..k] + [] + kids[k + 1..];
    }
    DeleteRunValid(d, p, k, k + 1);
    assert kids[..k] + [] + kids[k + 1..] == kids[..k] + kids[k + 1..];
    EntriesReplaceRun(d, p, k, k + 1, []);
    var run := kids[k..k + 1];
    assert run[0] == At(Tree(d), q);
    RunGone(AllEntries(d), run, kp, AllEntries(r));
  }

  /** Entries left after a one-node run is taken out: none with its identity,
      and no identity that was not there before. */
  lemma RunGone(t: multiset<Entry>, run: seq<Node>, kp: Option<NodeKind>, n: multiset<Entry>)
    requires UniqueUids(t) && |run| == 1 && Entries(run, kp) <= t && n == t - Entries(run, kp) + Entries([], kp)
    ensures !HasUid(n, run[0].uid)
    ensures forall u :: HasUid(n, u) ==> HasUid(t, u)
  {
    EntryAtIn(run, [0], kp);
    TakenOut(t, Entries(run, kp), EntryAt(run, [0], kp), n);
    forall u | HasUid(n, u) ensures HasUid(t, u) {
      var e :| e in n && e.uid == u;
      assert e in t;
    }
  }

  /** A node strictly inside the body sits among its parent's children. */
  lemma ParentOf(d: Doc, q: Path)
    requires InBody(d, q)
    ensures ValidPath(Tree(d), Parent(q)) && ParentNode(d, q) == At(Tree(d), Parent(q))
    ensures Last(q) < |ParentNode(d, q).children| && ParentNode(d, q).children[Last(q)] == At(Tree(d), q)
    ensures Parent(q) + [Last(q)] == q
  {
    PrefixValid(Tree(d), q, |q| - 1);
    AtChild(Tree(d), Parent(q), Last(q));
    assert Parent(q) + [Last(q)] == q;
  }

  /** Writing back a node's own children changes nothing. */
  lemma SetKidsUnchanged(d: Doc, p: Path)
    requires ValidPath(Tree(d), p)
    ensures SetKids(d, p, At(Tree(d), p).children) == d
  {
    SetKidsAtSame(Tree(d), p);
  }

  lemma {:induction false} SetKidsAtSame(ns: seq<Node>, p: Path)
    requires ValidPath(ns, p)
    ensures SetKidsAt(ns, p, At(ns, p).children) == ns
    decreases |p|
  {
    if |p| > 1 {
      SetKidsAtSame(ns[p[0]].children, p[1..]);
    }
  }

  /** Two successive edits of the same child list amount to the second. */
  lemma SetKidsTwice(d: Doc, p: Path, a: seq<Node>, b: seq<Node>)
    requires ValidPath(Tree(d), p)
    ensures SetKids(SetKids(d, p, a), p, b) == SetKids(d, p, b)
  {
    SetKidsAtTwice(Tree(d), p, a, b);
  }

  lemma {:induction false} SetKidsAtTwice(ns: seq<Node>, p: Path, a: seq<Node>, b: seq<Node>)
    requires ValidPath(ns, p)
    ensures SetKidsAt(SetKidsAt(ns, p, a), p, b) == SetKidsAt(ns, p, b)
    decreases |p|
  {
    if |p| > 1 {
      SetKidsAtTwice(ns[p[0]].children, p[1..], a, b);
    }
  }
}
