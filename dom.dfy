/** The host document the engine edits, as a value: a tree of nodes that carry
    an identity (`uid`), a kind and an ordered child list. A position in the
    tree is an index path from the root forest; the multiset of `Entries`
    records which nodes a tree holds, and under which kind of parent. */
module Dom {
  import opened Outcomes

  /** A host node's kind. An element with `tag == ""` is a nameless (anonymous)
      element; `id == ""` means the element has no id attribute. */
  datatype NodeKind =
    | Element(tag: string, id: string)
    | Text(value: string)
    | Comment(data: string)

  datatype Node = Node(uid: nat, kind: NodeKind, children: seq<Node>)

  /** Child indices leading from a forest to one of its nodes. */
  type Path = seq<nat>

  predicate IsNameless(n: Node) {
    n.kind.Element? && n.kind.tag == ""
  }

  predicate IsPrefix(a: Path, b: Path) {
    |a| <= |b| && b[..|a|] == a
  }

  function Parent(p: Path): Path
    requires |p| > 0
  {
    p[..|p| - 1]
  }

  function Last(p: Path): nat
    requires |p| > 0
  {
    p[|p| - 1]
  }

  // ---------------------------------------------------------------------------
  // Positions

  predicate ValidPath(ns: seq<Node>, p: Path)
    decreases |p|
  {
    |p| > 0 && p[0] < |ns| && (|p| == 1 || ValidPath(ns[p[0]].children, p[1..]))
  }

  function At(ns: seq<Node>, p: Path): Node
    requires ValidPath(ns, p)
    decreases |p|
  {
    if |p| == 1 then ns[p[0]] else At(ns[p[0]].children, p[1..])
  }

  /** A path extended by `b` walks on from the node `a` reaches. */
  lemma {:induction false} AtConcat(ns: seq<Node>, a: Path, b: Path)
    requires ValidPath(ns, a) && |b| > 0
    ensures ValidPath(ns, a + b) <==> ValidPath(At(ns, a).children, b)
    ensures ValidPath(ns, a + b) ==> At(ns, a + b) == At(At(ns, a).children, b)
    decreases |a|
  {
    assert (a + b)[0] == a[0];
    if |a| == 1 {
      assert (a + b)[1..] == b;
    } else {
      assert (a + b)[1..] == a[1..] + b;
      AtConcat(ns[a[0]].children, a[1..], b);
    }
  }

  /** The child positions of a node are its path extended by one index. */
  lemma AtChild(ns: seq<Node>, p: Path, k: nat)
    requires ValidPath(ns, p)
    ensures ValidPath(ns, p + [k]) <==> k < |At(ns, p).children|
    ensures k < |At(ns, p).children| ==> At(ns, p + [k]) == At(ns, p).children[k]
  {
    AtConcat(ns, p, [k]);
  }

  /** Every prefix of a position is a position (an ancestor). */
  lemma {:induction false} PrefixValid(ns: seq<Node>, p: Path, n: nat)
    requires ValidPath(ns, p) && 0 < n <= |p|
    ensures ValidPath(ns, p[..n])
    decreases |p|
  {
    if n > 1 {
      assert p[..n][1..] == p[1..][..n - 1];
      PrefixValid(ns[p[0]].children, p[1..], n - 1);
    }
  }

  // ---------------------------------------------------------------------------
  // Editing: replacing the child list of one node

  /** The forest with the children of the node at `p` replaced by `cs`. */
  function SetKidsAt(ns: seq<Node>, p: Path, cs: seq<Node>): (r: seq<Node>)
    requires ValidPath(ns, p)
    ensures |r| == |ns|
    ensures ValidPath(r, p) && At(r, p) == At(ns, p).(children := cs)
    decreases |p|
  {
    var n := ns[p[0]];
    if |p| == 1 then ns[p[0] := n.(children := cs)]
    else ns[p[0] := n.(children := SetKidsAt(n.children, p[1..], cs))]
  }

  /** Replacing one child list leaves every node not below the edited node in
      place with its identity and kind, and every node beside the edited one's
      line of ancestors entirely unchanged. */
  lemma {:induction false} SetKidsAtElsewhere(ns: seq<Node>, p: Path, cs: seq<Node>, q: Path)
    requires ValidPath(ns, p) && ValidPath(ns, q)
    requires !(IsPrefix(p, q) && |p| < |q|)
    ensures ValidPath(SetKidsAt(ns, p, cs), q)
    ensures At(SetKidsAt(ns, p, cs), q).uid == At(ns, q).uid
    ensures At(SetKidsAt(ns, p, cs), q).kind == At(ns, q).kind
    ensures !IsPrefix(q, p) ==> At(SetKidsAt(ns, p, cs), q) == At(ns, q)
    decreases |p|
  {
    var r := SetKidsAt(ns, p, cs);
    if q[0] != p[0] {
      assert r[q[0]] == ns[q[0]];
      assert !IsPrefix(q, p);
      SameSubtree(ns, r, q);
    } else if |q| == 1 {
    } else if |p| == 1 {
      assert false;
    } else {
      assert p[1..][..0] == [] && q[1..][..0] == [];
      assert IsPrefix(p[1..], q[1..]) ==> IsPrefix(p, q) by {
        if IsPrefix(p[1..], q[1..]) {
          assert q[..|p|] == [q[0]] + q[1..][..|p| - 1];
          assert p == [p[0]] + p[1..];
        }
      }
      assert IsPrefix(q[1..], p[1..]) ==> IsPrefix(q, p) by {
        if IsPrefix(q[1..], p[1..]) {
          assert p[..|q|] == [p[0]] + p[1..][..|q| - 1];
          assert q == [q[0]] + q[1..];
        }
      }
      SetKidsAtElsewhere(ns[p[0]].children, p[1..], cs, q[1..]);
    }
  }

  /** Two forests agreeing at the first index of `q` agree at `q`. */
  lemma SameSubtree(ns: seq<Node>, rs: seq<Node>, q: Path)
    requires ValidPath(ns, q) && |rs| == |ns| && rs[q[0]] == ns[q[0]]
    ensures ValidPath(rs, q) && At(rs, q) == At(ns, q)
  {
  }

  /** The child list with index `k` taken out. */
  function Without(s: seq<Node>, k: nat): (r: seq<Node>)
    requires k < |s|
    ensures |r| == |s| - 1
    ensures forall i :: 0 <= i < k ==> r[i] == s[i]
    ensures forall i :: k <= i < |r| ==> r[i] == s[i + 1]
  {
    s[..k] + s[k + 1..]
  }

  /** The forest with the node at `q` removed from its parent (`removeChild`). */
  function RemoveAt(ns: seq<Node>, q: Path): (r: seq<Node>)
    requires ValidPath(ns, q) && |q| >= 2
    ensures |r| == |ns|
  {
    PrefixValid(ns, q, |q| - 1);
    AtChild(ns, Parent(q), Last(q));
    assert Parent(q) + [Last(q)] == q;
    SetKidsAt(ns, Parent(q), Without(At(ns, Parent(q)).children, Last(q)))
  }

  /** Where a position that is not inside the removed node ends up. */
  function ShiftAfterRemove(q: Path, removed: Path): Path
    requires |removed| > 0
  {
    var d := |removed| - 1;
    if |q| > d && q[..d] == removed[..d] && q[d] > removed[d] then q[d := q[d] - 1] else q
  }

  /** Removing a node moves the later siblings on its level (and everything
      below them) one index to the left and keeps every other node in place. */
  lemma RemoveShift(ns: seq<Node>, removed: Path, q: Path)
    requires ValidPath(ns, removed) && |removed| >= 2
    requires ValidPath(ns, q) && !IsPrefix(removed, q)
    ensures ValidPath(RemoveAt(ns, removed), ShiftAfterRemove(q, removed))
    ensures At(RemoveAt(ns, removed), ShiftAfterRemove(q, removed)).uid == At(ns, q).uid
    ensures At(RemoveAt(ns, removed), ShiftAfterRemove(q, removed)).kind == At(ns, q).kind
  {
    var pp := Parent(removed);
    var k := Last(removed);
    PrefixValid(ns, removed, |removed| - 1);
    AtChild(ns, pp, k);
    assert pp + [k] == removed;
    var kids := At(ns, pp).children;
    var r := RemoveAt(ns, removed);
    assert r == SetKidsAt(ns, pp, Without(kids, k));
    var d := |pp|;
    if IsPrefix(pp, q) && |pp| < |q| {
      RemoveShiftSibling(ns, removed, q);
    } else {
      assert ShiftAfterRemove(q, removed) == q by {
        assert removed[..d] == pp;
      }
      SetKidsAtElsewhere(ns, pp, Without(kids, k), q);
    }
  }

  /** A node neither inside the removed one nor on its line of ancestors is
      left whole, at its shifted position. */
  lemma RemoveElsewhere(ns: seq<Node>, removed: Path, q: Path)
    requires ValidPath(ns, removed) && |removed| >= 2
    requires ValidPath(ns, q) && !IsPrefix(removed, q) && !IsPrefix(q, removed)
    ensures ValidPath(RemoveAt(ns, removed), ShiftAfterRemove(q, removed))
    ensures At(RemoveAt(ns, removed), ShiftAfterRemove(q, removed)) == At(ns, q)
  {
    var pp := Parent(removed);
    var k := Last(removed);
    PrefixValid(ns, removed, |removed| - 1);
    AtChild(ns, pp, k);
    assert pp + [k] == removed;
    var kids := At(ns, pp).children;
    assert RemoveAt(ns, removed) == SetKidsAt(ns, pp, Without(kids, k));
    if IsPrefix(pp, q) && |pp| < |q| {
      RemoveShiftSibling(ns, removed, q);
    } else {
      var d := |pp|;
      assert ShiftAfterRemove(q, removed) == q by {
        assert removed[..d] == pp;
      }
      SetKidsAtElsewhere(ns, pp, Without(kids, k), q);
    }
  }

  /** Taking a node out keeps the ancestor relation among the positions outside it. */
  lemma ShiftKeepsPrefix(a: Path, b: Path, removed: Path)
    requires |removed| >= 1 && !IsPrefix(removed, a) && !IsPrefix(removed, b)
    ensures IsPrefix(ShiftAfterRemove(a, removed), ShiftAfterRemove(b, removed)) <==> IsPrefix(a, b)
  {
    var dd := |removed| - 1;
    var sa := ShiftAfterRemove(a, removed);
    var sb := ShiftAfterRemove(b, removed);
    assert |sa| == |a| && |sb| == |b|;
    if |a| <= |b| {
      if |a| <= dd {
        assert sa == a;
        assert sb[..|a|] == b[..|a|];
      } else {
        assert sa[..dd] == a[..dd] && sb[..dd] == b[..dd];
        assert sa[dd + 1..|a|] == a[dd + 1..|a|] && sb[dd + 1..|a|] == b[dd + 1..|a|];
        assert a[..|a|] == a[..dd] + [a[dd]] + a[dd + 1..|a|];
        assert b[..|a|] == b[..dd] + [b[dd]] + b[dd + 1..|a|];
        assert sa[..|a|] == sa[..dd] + [sa[dd]] + sa[dd + 1..|a|];
        assert sb[..|a|] == sb[..dd] + [sb[dd]] + sb[dd + 1..|a|];
        if a[..dd] == b[..dd] && a[..dd] == removed[..dd] {
          assert removed == removed[..dd] + [removed[dd]];
          assert a[..dd + 1] == a[..dd] + [a[dd]] && b[..dd + 1] == b[..dd] + [b[dd]];
        }
      }
    }
  }

  /** The case of `RemoveShift` where `q` lies below a sibling of the removed node. */
  lemma RemoveShiftSibling(ns: seq<Node>, removed: Path, q: Path)
    requires ValidPath(ns, removed) && |removed| >= 2
    requires ValidPath(ns, q) && !IsPrefix(removed, q)
    requires IsPrefix(Parent(removed), q) && |removed| <= |q|
    ensures ValidPath(RemoveAt(ns, removed), ShiftAfterRemove(q, removed))
    ensures At(RemoveAt(ns, removed), ShiftAfterRemove(q, removed)) == At(ns, q)
  {
    var pp := Parent(removed);
    var k := Last(removed);
    PrefixValid(ns, removed, |removed| - 1);
    AtChild(ns, pp, k);
    assert pp + [k] == removed;
    var kids := At(ns, pp).children;
    var d := |pp|;
    var j := q[d];
    var rest := q[d + 1..];
    assert q == pp + ([j] + rest);
    assert j != k;
    var j' := if j > k then j - 1 else j;
    assert ShiftAfterRemove(q, removed) == pp + ([j'] + rest) by {
      assert q[..d] == pp && removed[..d] == pp;
    }
    AtConcat(ns, pp, [j] + rest);
    assert j < |kids|;
    SetKidsBelow(ns, pp, Without(kids, k), j, j', rest);
  }

  /** Moving a node to another index of the same child list moves its subtree along. */
  lemma SetKidsBelow(ns: seq<Node>, pp: Path, cs: seq<Node>, j: nat, j': nat, rest: Path)
    requires ValidPath(ns, pp) && ValidPath(ns, pp + ([j] + rest))
    requires j' < |cs| && j < |At(ns, pp).children| && cs[j'] == At(ns, pp).children[j]
    ensures ValidPath(SetKidsAt(ns, pp, cs), pp + ([j'] + rest))
    ensures At(SetKidsAt(ns, pp, cs), pp + ([j'] + rest)) == At(ns, pp + ([j] + rest))
  {
    var r := SetKidsAt(ns, pp, cs);
    var kids := At(ns, pp).children;
    AtConcat(ns, pp, [j] + rest);
    AtConcat(r, pp, [j'] + rest);
    if rest == [] {
      assert [j] + rest == [j] && [j'] + rest == [j'];
    } else {
      AtConcat(kids, [j], rest);
      AtConcat(cs, [j'], rest);
    }
  }

  // ---------------------------------------------------------------------------
  // What a tree holds

  /** One node as recorded by `Entries`: identity, kind, and its parent's kind
      (`None` for the roots of the forest). */
  datatype Entry = Entry(uid: nat, kind: NodeKind, parent: Option<NodeKind>)

  function Entries(ns: seq<Node>, pk: Option<NodeKind>): multiset<Entry>
    decreases ns
  {
    if ns == [] then multiset{}
    else multiset{Entry(ns[0].uid, ns[0].kind, pk)} + Entries(ns[0].children, Some(ns[0].kind))
         + Entries(ns[1..], pk)
  }

  /** The entries of one node's subtree. */
  function NodeEntries(n: Node, pk: Option<NodeKind>): multiset<Entry> {
    multiset{Entry(n.uid, n.kind, pk)} + Entries(n.children, Some(n.kind))
  }

  lemma {:induction false} EntriesAppend(a: seq<Node>, b: seq<Node>, pk: Option<NodeKind>)
    ensures Entries(a + b, pk) == Entries(a, pk) + Entries(b, pk)
    decreases |a|
  {
    if a == [] {
      assert a + b == b;
    } else {
      assert (a + b)[0] == a[0];
      assert (a + b)[1..] == a[1..] + b;
      EntriesAppend(a[1..], b, pk);
    }
  }

  lemma Cancel(a: multiset<Entry>, b: multiset<Entry>, x: multiset<Entry>, k1: multiset<Entry>, k2: multiset<Entry>)
    requires a + (x + k1) == b + (x + k2)
    ensures a + k1 == b + k2
  {
    forall e ensures (a + k1)[e] == (b + k2)[e] {
      assert (a + (x + k1))[e] == (b + (x + k2))[e];
    }
  }

  lemma Trade(r: multiset<Entry>, e: multiset<Entry>, x: multiset<Entry>, c: multiset<Entry>,
              i: multiset<Entry>, gone: multiset<Entry>, added: multiset<Entry>)
    requires r + (x + c) == e + (x + i)
    requires i + gone == c + added
    ensures r + gone == e + added
  {
    forall y ensures (r + gone)[y] == (e + added)[y] {
      assert (r + (x + c))[y] == (e + (x + i))[y];
      assert (i + gone)[y] == (c + added)[y];
    }
  }

  lemma EntriesSingle(n: Node, pk: Option<NodeKind>)
    ensures Entries([n], pk) == NodeEntries(n, pk)
  {
    assert [n][1..] == [];
  }

  /** Replacing one node of a forest trades its subtree's entries for the new one's. */
  lemma EntriesUpdate(ns: seq<Node>, i: nat, n: Node, pk: Option<NodeKind>)
    requires i < |ns|
    ensures Entries(ns[i := n], pk) + NodeEntries(ns[i], pk) == Entries(ns, pk) + NodeEntries(n, pk)
  {
    assert ns == ns[..i] + [ns[i]] + ns[i + 1..];
    assert ns[i := n] == ns[..i] + [n] + ns[i + 1..];
    EntriesAppend(ns[..i] + [ns[i]], ns[i + 1..], pk);
    EntriesAppend(ns[..i], [ns[i]], pk);
    EntriesAppend(ns[..i] + [n], ns[i + 1..], pk);
    EntriesAppend(ns[..i], [n], pk);
    EntriesSingle(ns[i], pk);
    EntriesSingle(n, pk);
  }

  /** Replacing a child list trades the old children's entries for the new ones'
      and keeps every other entry, the edited node's own included. */
  lemma {:induction false} EntriesSetKids(ns: seq<Node>, p: Path, cs: seq<Node>, pk: Option<NodeKind>)
    requires ValidPath(ns, p)
    ensures Entries(SetKidsAt(ns, p, cs), pk) + Entries(At(ns, p).children, Some(At(ns, p).kind))
         == Entries(ns, pk) + Entries(cs, Some(At(ns, p).kind))
    decreases |p|
  {
    var n := ns[p[0]];
    if |p| == 1 {
      assert At(ns, p) == n;
      assert SetKidsAt(ns, p, cs) == ns[p[0] := n.(children := cs)];
      var x := multiset{Entry(n.uid, n.kind, pk)};
      EntriesUpdate(ns, p[0], n.(children := cs), pk);
      assert NodeEntries(n, pk) == x + Entries(n.children, Some(n.kind));
      assert NodeEntries(n.(children := cs), pk) == x + Entries(cs, Some(n.kind));
      Cancel(Entries(SetKidsAt(ns, p, cs), pk), Entries(ns, pk), x,
             Entries(n.children, Some(n.kind)), Entries(cs, Some(n.kind)));
    } else {
      var inner := SetKidsAt(n.children, p[1..], cs);
      assert At(ns, p) == At(n.children, p[1..]);
      assert SetKidsAt(ns, p, cs) == ns[p[0] := n.(children := inner)];
      EntriesSetKids(n.children, p[1..], cs, Some(n.kind));
      EntriesUpdate(ns, p[0], n.(children := inner), pk);
      var x := multiset{Entry(n.uid, n.kind, pk)};
      assert NodeEntries(n, pk) == x + Entries(n.children, Some(n.kind));
      assert NodeEntries(n.(children := inner), pk) == x + Entries(inner, Some(n.kind));
      Trade(Entries(SetKidsAt(ns, p, cs), pk), Entries(ns, pk), x,
            Entries(n.children, Some(n.kind)), Entries(inner, Some(n.kind)),
            Entries(At(ns, p).children, Some(At(ns, p).kind)), Entries(cs, Some(At(ns, p).kind)));
    }
  }

  /** The parent kind recorded for the node at a position. */
  function ParentKind(ns: seq<Node>, q: Path, pk: Option<NodeKind>): Option<NodeKind>
    requires ValidPath(ns, q)
    decreases |q|
  {
    if |q| == 1 then pk else ParentKind(ns[q[0]].children, q[1..], Some(ns[q[0]].kind))
  }

  function EntryAt(ns: seq<Node>, q: Path, pk: Option<NodeKind>): Entry
    requires ValidPath(ns, q)
  {
    Entry(At(ns, q).uid, At(ns, q).kind, ParentKind(ns, q, pk))
  }

  /** The node at a child position is recorded under its parent's kind. */
  lemma {:induction false} ParentKindOfChild(ns: seq<Node>, p: Path, k: nat, pk: Option<NodeKind>)
    requires ValidPath(ns, p) && k < |At(ns, p).children|
    ensures ValidPath(ns, p + [k]) && ParentKind(ns, p + [k], pk) == Some(At(ns, p).kind)
    decreases |p|
  {
    AtChild(ns, p, k);
    if |p| == 1 {
      assert (p + [k])[1..] == [k];
    } else {
      assert (p + [k])[1..] == p[1..] + [k];
      ParentKindOfChild(ns[p[0]].children, p[1..], k, Some(ns[p[0]].kind));
    }
  }

  /** Every node at a position is recorded in the entries. */
  lemma {:induction false} EntryAtIn(ns: seq<Node>, q: Path, pk: Option<NodeKind>)
    requires ValidPath(ns, q)
    ensures EntryAt(ns, q, pk) in Entries(ns, pk)
    decreases |q|
  {
    var i := q[0];
    assert ns == ns[..i] + [ns[i]] + ns[i + 1..];
    EntriesAppend(ns[..i] + [ns[i]], ns[i + 1..], pk);
    EntriesAppend(ns[..i], [ns[i]], pk);
    EntriesSingle(ns[i], pk);
    if |q| > 1 {
      EntryAtIn(ns[i].children, q[1..], Some(ns[i].kind));
    }
  }

  /** The entries of a subtree are entries of the whole forest. */
  lemma SubtreeEntries(ns: seq<Node>, q: Path, pk: Option<NodeKind>)
    requires ValidPath(ns, q)
    ensures Entries(At(ns, q).children, Some(At(ns, q).kind)) <= Entries(ns, pk)
    ensures NodeEntries(At(ns, q), ParentKind(ns, q, pk)) <= Entries(ns, pk)
  {
    var n := At(ns, q);
    NodeWithin(ns, q, pk);
    var own := NodeEntries(n, ParentKind(ns, q, pk));
    Within(Entries(n.children, Some(n.kind)), Entries(n.children, Some(n.kind)), own, Entries(ns, pk));
  }

  lemma {:induction false} NodeWithin(ns: seq<Node>, q: Path, pk: Option<NodeKind>)
    requires ValidPath(ns, q)
    ensures NodeEntries(At(ns, q), ParentKind(ns, q, pk)) <= Entries(ns, pk)
    decreases |q|
  {
    var i := q[0];
    var own := NodeEntries(ns[i], pk);
    assert ns == ns[..i] + [ns[i]] + ns[i + 1..];
    EntriesAppend(ns[..i] + [ns[i]], ns[i + 1..], pk);
    EntriesAppend(ns[..i], [ns[i]], pk);
    EntriesSingle(ns[i], pk);
    InMiddle(Entries(ns[..i], pk), own, Entries(ns[i + 1..], pk), Entries(ns, pk));
    if |q| > 1 {
      var kids := ns[i].children;
      var kk := Some(ns[i].kind);
      NodeWithin(kids, q[1..], kk);
      assert At(ns, q) == At(kids, q[1..]) && ParentKind(ns, q, pk) == ParentKind(kids, q[1..], kk);
      Within(NodeEntries(At(kids, q[1..]), ParentKind(kids, q[1..], kk)), Entries(kids, kk), own, Entries(ns, pk));
    }
  }

  lemma InMiddle(a: multiset<Entry>, b: multiset<Entry>, c: multiset<Entry>, t: multiset<Entry>)
    requires t == a + b + c
    ensures b <= t
  {
  }

  /** A part of a node's subtree entries is part of any forest holding the node. */
  lemma Within(x: multiset<Entry>, sub: multiset<Entry>, own: multiset<Entry>, t: multiset<Entry>)
    requires x <= sub && own <= t
    requires exists y :: own == multiset{y} + sub
    ensures x <= t
  {
    forall z ensures x[z] <= t[z] {
      assert x[z] <= sub[z] <= own[z];
    }
  }

  // ---------------------------------------------------------------------------
  // Searching in document order

  /** Each position put under the root index `i`. */
  function Under(i: nat, ps: seq<Path>): (r: seq<Path>)
    ensures |r| == |ps|
  {
    if ps == [] then [] else [[i] + ps[0]] + Under(i, ps[1..])
  }

  lemma {:induction false} UnderAt(i: nat, ps: seq<Path>, k: nat)
    requires k < |ps|
    ensures Under(i, ps)[k] == [i] + ps[k]
  {
    if k > 0 {
      UnderAt(i, ps[1..], k - 1);
    }
  }

  /** A position moved one sibling to the right. */
  function Shift(p: Path): Path {
    if p == [] then [] else [p[0] + 1] + p[1..]
  }

  /** Each position moved one sibling to the right. */
  function Later(ps: seq<Path>): (r: seq<Path>)
    ensures |r| == |ps|
  {
    if ps == [] then [] else [Shift(ps[0])] + Later(ps[1..])
  }

  lemma {:induction false} LaterAt(ps: seq<Path>, k: nat)
    requires k < |ps|
    ensures Later(ps)[k] == Shift(ps[k])
  {
    if k > 0 {
      LaterAt(ps[1..], k - 1);
    }
  }

  /** The positions, in document order, of the nodes whose entry satisfies
      `pred` (`AllWhereSound` and `AllWhereComplete` say so). */
  function AllWhere(ns: seq<Node>, pk: Option<NodeKind>, pred: Entry -> bool): seq<Path>
    decreases ns
  {
    if ns == [] then []
    else
      var here := if pred(Entry(ns[0].uid, ns[0].kind, pk)) then [[0]] else [];
      here + Under(0, AllWhere(ns[0].children, Some(ns[0].kind), pred)) + Later(AllWhere(ns[1..], pk, pred))
  }

  lemma UnderOne(ns: seq<Node>, pk: Option<NodeKind>, b: Path)
    requires ns != [] && ValidPath(ns[0].children, b)
    ensures ValidPath(ns, [0] + b) && EntryAt(ns, [0] + b, pk) == EntryAt(ns[0].children, b, Some(ns[0].kind))
  {
    assert ([0] + b)[1..] == b;
  }

  lemma LaterOne(ns: seq<Node>, pk: Option<NodeKind>, a: Path)
    requires ns != [] && ValidPath(ns[1..], a)
    ensures ValidPath(ns, Shift(a)) && Shift(a) == [a[0] + 1] + a[1..]
    ensures EntryAt(ns, Shift(a), pk) == EntryAt(ns[1..], a, pk)
  {
    var q := [a[0] + 1] + a[1..];
    assert q[1..] == a[1..];
    assert ns[q[0]] == ns[1..][a[0]];
  }

  /** One unfolding of the search: the node itself, then its subtree's
      matches under index 0, then its later siblings' matches shifted by one. */
  lemma AllWhereSplit(ns: seq<Node>, pk: Option<NodeKind>, pred: Entry -> bool)
    requires ns != []
    ensures var here := if pred(Entry(ns[0].uid, ns[0].kind, pk)) then [[0]] else [];
      var all := AllWhere(ns, pk, pred);
      && |all| == |here| + |AllWhere(ns[0].children, Some(ns[0].kind), pred)| + |AllWhere(ns[1..], pk, pred)|
      && (pred(Entry(ns[0].uid, ns[0].kind, pk)) ==> all[0] == [0])
  {
  }

  /** The `i`-th match below the first node, as listed by the search. */
  lemma AllWhereBelowAt(ns: seq<Node>, pk: Option<NodeKind>, pred: Entry -> bool, i: nat)
    requires ns != [] && i < |AllWhere(ns[0].children, Some(ns[0].kind), pred)|
    ensures var here := if pred(Entry(ns[0].uid, ns[0].kind, pk)) then [[0]] else [];
      var below := AllWhere(ns[0].children, Some(ns[0].kind), pred);
      |here| + i < |AllWhere(ns, pk, pred)| && AllWhere(ns, pk, pred)[|here| + i] == [0] + below[i]
  {
    var here := if pred(Entry(ns[0].uid, ns[0].kind, pk)) then [[0]] else [];
    var below := AllWhere(ns[0].children, Some(ns[0].kind), pred);
    var under := Under(0, below);
    var all := AllWhere(ns, pk, pred);
    var front := here + under;
    assert all == front + Later(AllWhere(ns[1..], pk, pred));
    assert all[|here| + i] == front[|here| + i];
    assert front[|here| + i] == under[i];
    UnderAt(0, below, i);
  }

  /** The search's defining equation at a non-empty forest. */
  lemma AllWhereUnfold(ns: seq<Node>, pk: Option<NodeKind>, pred: Entry -> bool)
    requires ns != []
    ensures AllWhere(ns, pk, pred)
         == (if pred(Entry(ns[0].uid, ns[0].kind, pk)) then [[0]] else [])
            + Under(0, AllWhere(ns[0].children, Some(ns[0].kind), pred)) + Later(AllWhere(ns[1..], pk, pred))
  {
  }

  lemma ConcatAt<T>(a: seq<T>, b: seq<T>, j: nat)
    requires j < |b|
    ensures (a + b)[|a| + j] == b[j]
  {
  }

  /** The `i`-th match among the later siblings, as listed by the search. */
  lemma AllWhereAfterAt(ns: seq<Node>, pk: Option<NodeKind>, pred: Entry -> bool, i: nat)
    requires ns != [] && i < |AllWhere(ns[1..], pk, pred)|
    ensures var here := if pred(Entry(ns[0].uid, ns[0].kind, pk)) then [[0]] else [];
      var below := AllWhere(ns[0].children, Some(ns[0].kind), pred);
      var after := AllWhere(ns[1..], pk, pred);
      && |here| + |below| + i < |AllWhere(ns, pk, pred)|
      && AllWhere(ns, pk, pred)[|here| + |below| + i] == Shift(after[i])
  {
    var here := if pred(Entry(ns[0].uid, ns[0].kind, pk)) then [[0]] else [];
    var below := AllWhere(ns[0].children, Some(ns[0].kind), pred);
    var after := AllWhere(ns[1..], pk, pred);
    AllWhereUnfold(ns, pk, pred);
    ConcatAt(here + Under(0, below), Later(after), i);
    LaterAt(after, i);
  }

  /** The search lists only nodes that satisfy `pred`, one position at a time. */
  lemma {:induction false} AllWhereSoundAt(ns: seq<Node>, pk: Option<NodeKind>, pred: Entry -> bool, k: nat)
    requires k < |AllWhere(ns, pk, pred)|
    ensures ValidPath(ns, AllWhere(ns, pk, pred)[k]) && pred(EntryAt(ns, AllWhere(ns, pk, pred)[k], pk))
    decreases ns
  {
    var here := if pred(Entry(ns[0].uid, ns[0].kind, pk)) then [[0]] else [];
    var below := AllWhere(ns[0].children, Some(ns[0].kind), pred);
    var after := AllWhere(ns[1..], pk, pred);
    AllWhereSplit(ns, pk, pred);
    if k < |here| {
      assert EntryAt(ns, [0], pk) == Entry(ns[0].uid, ns[0].kind, pk);
    } else if k < |here| + |below| {
      var i := k - |here|;
      AllWhereSoundAt(ns[0].children, Some(ns[0].kind), pred, i);
      var e := EntryAt(ns[0].children, below[i], Some(ns[0].kind));
      var j := FoundBelow(ns, pk, pred, e, i);
      assert j == k && pred(e);
    } else {
      var i := k - |here| - |below|;
      AllWhereSoundAt(ns[1..], pk, pred, i);
      var e := EntryAt(ns[1..], after[i], pk);
      var j := FoundAfter(ns, pk, pred, e, i);
      assert j == k && pred(e);
    }
  }

  /** The search lists only nodes that satisfy `pred`. */
  lemma AllWhereSound(ns: seq<Node>, pk: Option<NodeKind>, pred: Entry -> bool)
    ensures forall k :: 0 <= k < |AllWhere(ns, pk, pred)| ==>
      ValidPath(ns, AllWhere(ns, pk, pred)[k]) && pred(EntryAt(ns, AllWhere(ns, pk, pred)[k], pk))
  {
    forall k | 0 <= k < |AllWhere(ns, pk, pred)|
      ensures ValidPath(ns, AllWhere(ns, pk, pred)[k]) && pred(EntryAt(ns, AllWhere(ns, pk, pred)[k], pk))
    {
      AllWhereSoundAt(ns, pk, pred, k);
    }
  }

  /** A recorded node satisfying `pred` is found by the search, at index `k`. */
  lemma {:induction false} AllWhereComplete(ns: seq<Node>, pk: Option<NodeKind>, pred: Entry -> bool, e: Entry)
    returns (k: nat)
    requires e in Entries(ns, pk) && pred(e)
    ensures k < |AllWhere(ns, pk, pred)| && ValidPath(ns, AllWhere(ns, pk, pred)[k])
    ensures EntryAt(ns, AllWhere(ns, pk, pred)[k], pk) == e
    decreases ns
  {
    if e == Entry(ns[0].uid, ns[0].kind, pk) {
      AllWhereSplit(ns, pk, pred);
      k := 0;
      assert EntryAt(ns, [0], pk) == e;
    } else if e in Entries(ns[0].children, Some(ns[0].kind)) {
      var i := AllWhereComplete(ns[0].children, Some(ns[0].kind), pred, e);
      k := FoundBelow(ns, pk, pred, e, i);
    } else {
      assert e in Entries(ns[1..], pk);
      var i := AllWhereComplete(ns[1..], pk, pred, e);
      k := FoundAfter(ns, pk, pred, e, i);
    }
  }

  /** A match found below the first node is listed by the search of the forest. */
  lemma FoundBelow(ns: seq<Node>, pk: Option<NodeKind>, pred: Entry -> bool, e: Entry, i: nat) returns (k: nat)
    requires ns != [] && i < |AllWhere(ns[0].children, Some(ns[0].kind), pred)|
    requires ValidPath(ns[0].children, AllWhere(ns[0].children, Some(ns[0].kind), pred)[i])
    requires EntryAt(ns[0].children, AllWhere(ns[0].children, Some(ns[0].kind), pred)[i], Some(ns[0].kind)) == e
    ensures k == (if pred(Entry(ns[0].uid, ns[0].kind, pk)) then 1 else 0) + i
    ensures k < |AllWhere(ns, pk, pred)| && ValidPath(ns, AllWhere(ns, pk, pred)[k])
    ensures EntryAt(ns, AllWhere(ns, pk, pred)[k], pk) == e
  {
    var here := if pred(Entry(ns[0].uid, ns[0].kind, pk)) then [[0]] else [];
    AllWhereBelowAt(ns, pk, pred, i);
    UnderOne(ns, pk, AllWhere(ns[0].children, Some(ns[0].kind), pred)[i]);
    k := |here| + i;
  }

  /** A match found among the later siblings is listed by the search of the forest. */
  lemma FoundAfter(ns: seq<Node>, pk: Option<NodeKind>, pred: Entry -> bool, e: Entry, i: nat) returns (k: nat)
    requires ns != [] && i < |AllWhere(ns[1..], pk, pred)|
    requires ValidPath(ns[1..], AllWhere(ns[1..], pk, pred)[i])
    requires EntryAt(ns[1..], AllWhere(ns[1..], pk, pred)[i], pk) == e
    ensures k == (if pred(Entry(ns[0].uid, ns[0].kind, pk)) then 1 else 0)
                 + |AllWhere(ns[0].children, Some(ns[0].kind), pred)| + i
    ensures k < |AllWhere(ns, pk, pred)| && ValidPath(ns, AllWhere(ns, pk, pred)[k])
    ensures EntryAt(ns, AllWhere(ns, pk, pred)[k], pk) == e
  {
    var here := if pred(Entry(ns[0].uid, ns[0].kind, pk)) then [[0]] else [];
    var below := AllWhere(ns[0].children, Some(ns[0].kind), pred);
    AllWhereAfterAt(ns, pk, pred, i);
    LaterOne(ns, pk, AllWhere(ns[1..], pk, pred)[i]);
    k := |here| + |below| + i;
  }

  /** Every position whose node satisfies `pred` is listed by the search. */
  lemma {:induction false} AllWhereHasPath(ns: seq<Node>, pk: Option<NodeKind>, pred: Entry -> bool, q: Path)
    returns (k: nat)
    requires ValidPath(ns, q) && pred(EntryAt(ns, q, pk))
    ensures k < |AllWhere(ns, pk, pred)| && AllWhere(ns, pk, pred)[k] == q
    decreases ns, 1
  {
    AllWhereSplit(ns, pk, pred);
    if q == [0] {
      k := 0;
      assert EntryAt(ns, q, pk) == Entry(ns[0].uid, ns[0].kind, pk);
    } else if q[0] == 0 {
      k := HasPathBelow(ns, pk, pred, q);
    } else {
      k := HasPathAfter(ns, pk, pred, q);
    }
  }

  lemma {:induction false} HasPathBelow(ns: seq<Node>, pk: Option<NodeKind>, pred: Entry -> bool, q: Path)
    returns (k: nat)
    requires ValidPath(ns, q) && pred(EntryAt(ns, q, pk)) && q[0] == 0 && |q| > 1
    ensures k < |AllWhere(ns, pk, pred)| && AllWhere(ns, pk, pred)[k] == q
    decreases ns, 0
  {
    var here := if pred(Entry(ns[0].uid, ns[0].kind, pk)) then [[0]] else [];
    var b := q[1..];
    assert q == [0] + b;
    UnderOne(ns, pk, b);
    var i := AllWhereHasPath(ns[0].children, Some(ns[0].kind), pred, b);
    k := |here| + i;
    AllWhereBelowAt(ns, pk, pred, i);
  }

  lemma {:induction false} HasPathAfter(ns: seq<Node>, pk: Option<NodeKind>, pred: Entry -> bool, q: Path)
    returns (k: nat)
    requires ValidPath(ns, q) && pred(EntryAt(ns, q, pk)) && q[0] > 0
    ensures k < |AllWhere(ns, pk, pred)| && AllWhere(ns, pk, pred)[k] == q
    decreases ns, 0
  {
    var here := if pred(Entry(ns[0].uid, ns[0].kind, pk)) then [[0]] else [];
    var below := AllWhere(ns[0].children, Some(ns[0].kind), pred);
    var a := [q[0] - 1] + q[1..];
    assert a[1..] == q[1..] && ns[1..][a[0]] == ns[q[0]];
    assert ValidPath(ns[1..], a);
    LaterOne(ns, pk, a);
    assert Shift(a) == q;
    var i := AllWhereHasPath(ns[1..], pk, pred, a);
    k := |here| + |below| + i;
    AllWhereAfterAt(ns, pk, pred, i);
  }

  // ---------------------------------------------------------------------------
  // Document order

  /** Document order on positions: `p` comes before `q` when it leads to an
      ancestor of `q`'s node, or when at the first index where the two differ
      `p` has the smaller one (an earlier sibling's subtree). */
  predicate Before(p: Path, q: Path)
    decreases |p|
  {
    q != [] && (p == [] || p[0] < q[0] || (p[0] == q[0] && Before(p[1..], q[1..])))
  }

  /** Document order is a strict order: no position comes before itself, and
      no two positions come before each other. */
  lemma {:induction false} BeforeAsym(p: Path, q: Path)
    ensures Before(p, q) ==> !Before(q, p)
    decreases |p|
  {
    if p != [] && q != [] && p[0] == q[0] {
      BeforeAsym(p[1..], q[1..]);
    }
  }

  lemma BeforeUnder(i: nat, x: Path, y: Path)
    requires Before(x, y)
    ensures Before([i] + x, [i] + y)
  {
    assert ([i] + x)[1..] == x && ([i] + y)[1..] == y;
  }

  lemma BeforeUnderBack(i: nat, x: Path, y: Path)
    requires Before([i] + x, [i] + y)
    ensures Before(x, y)
  {
    assert ([i] + x)[1..] == x && ([i] + y)[1..] == y;
  }

  lemma BeforeShift(x: Path, y: Path)
    requires x != [] && y != [] && Before(x, y)
    ensures Before(Shift(x), Shift(y))
  {
    assert Shift(x)[1..] == x[1..] && Shift(y)[1..] == y[1..];
  }

  lemma BeforeBelow(b: Path)
    requires b != []
    ensures Before([0], [0] + b)
  {
    assert ([0] + b)[1..] == b;
  }

  lemma BeforeLater(b: Path, a: Path)
    requires a != []
    ensures Before([0] + b, Shift(a))
  {
  }

  /** Positions listed in strictly increasing document order. */
  predicate Sorted(ps: seq<Path>) {
    forall i, j :: 0 <= i < j < |ps| ==> Before(ps[i], ps[j])
  }

  predicate NoneEmpty(ps: seq<Path>) {
    forall k :: 0 <= k < |ps| ==> ps[k] != []
  }

  /** The search lists its positions in strictly increasing document order. */
  lemma {:induction false} AllWhereSorted(ns: seq<Node>, pk: Option<NodeKind>, pred: Entry -> bool)
    ensures Sorted(AllWhere(ns, pk, pred))
    decreases ns
  {
    if ns != [] {
      var below := AllWhere(ns[0].children, Some(ns[0].kind), pred);
      var after := AllWhere(ns[1..], pk, pred);
      var here: seq<Path> := if pred(Entry(ns[0].uid, ns[0].kind, pk)) then [[0]] else [];
      AllWhereSorted(ns[0].children, Some(ns[0].kind), pred);
      AllWhereSorted(ns[1..], pk, pred);
      AllWhereNoneEmpty(ns[0].children, Some(ns[0].kind), pred);
      AllWhereNoneEmpty(ns[1..], pk, pred);
      UnderSorted(below);
      LaterSorted(after);
      HereBeforeUnder(here, below);
      FrontBeforeLater(here, below, after);
      AllWhereUnfold(ns, pk, pred);
    }
  }

  lemma AllWhereNoneEmpty(ns: seq<Node>, pk: Option<NodeKind>, pred: Entry -> bool)
    ensures NoneEmpty(AllWhere(ns, pk, pred))
  {
    forall k | 0 <= k < |AllWhere(ns, pk, pred)| ensures AllWhere(ns, pk, pred)[k] != [] {
      AllWhereSoundAt(ns, pk, pred, k);
    }
  }

  lemma UnderSorted(ps: seq<Path>)
    requires Sorted(ps)
    ensures Sorted(Under(0, ps))
  {
    forall i, j | 0 <= i < j < |ps| ensures Before(Under(0, ps)[i], Under(0, ps)[j]) {
      UnderAt(0, ps, i);
      UnderAt(0, ps, j);
      BeforeUnder(0, ps[i], ps[j]);
    }
  }

  lemma LaterSorted(ps: seq<Path>)
    requires Sorted(ps) && NoneEmpty(ps)
    ensures Sorted(Later(ps))
  {
    forall i, j | 0 <= i < j < |ps| ensures Before(Later(ps)[i], Later(ps)[j]) {
      LaterAt(ps, i);
      LaterAt(ps, j);
      BeforeShift(ps[i], ps[j]);
    }
  }

  /** The first node, if it matches, comes before everything below it. */
  lemma HereBeforeUnder(here: seq<Path>, below: seq<Path>)
    requires here == [] || here == [[0]]
    requires Sorted(Under(0, below)) && NoneEmpty(below)
    ensures Sorted(here + Under(0, below))
  {
    var u := Under(0, below);
    forall i, j | 0 <= i < |here| && 0 <= j < |u| ensures Before(here[i], u[j]) {
      UnderAt(0, below, j);
      BeforeBelow(below[j]);
    }
    AppendSorted(here, u);
  }

  /** The first node and everything below it come before its later siblings. */
  lemma FrontBeforeLater(here: seq<Path>, below: seq<Path>, after: seq<Path>)
    requires here == [] || here == [[0]]
    requires Sorted(here + Under(0, below)) && Sorted(Later(after)) && NoneEmpty(after)
    ensures Sorted(here + Under(0, below) + Later(after))
  {
    var f := here + Under(0, below);
    var l := Later(after);
    forall i, j | 0 <= i < |f| && 0 <= j < |l| ensures Before(f[i], l[j]) {
      LaterAt(after, j);
      if i < |here| {
        assert f[i] == [0] + [];
        BeforeLater([], after[j]);
      } else {
        UnderAt(0, below, i - |here|);
        BeforeLater(below[i - |here|], after[j]);
      }
    }
    AppendSorted(f, l);
  }

  lemma AppendSorted(a: seq<Path>, b: seq<Path>)
    requires Sorted(a) && Sorted(b)
    requires forall i, j :: 0 <= i < |a| && 0 <= j < |b| ==> Before(a[i], b[j])
    ensures Sorted(a + b)
  {
    forall i, j | 0 <= i < j < |a + b| ensures Before((a + b)[i], (a + b)[j]) {
      if j < |a| {
      } else if i < |a| {
        assert (a + b)[j] == b[j - |a|];
      } else {
        assert (a + b)[i] == b[i - |a|] && (a + b)[j] == b[j - |a|];
      }
    }
  }

  /** `AllWhereSorted` for one pair of indices. */
  lemma AllWhereOrdered(ns: seq<Node>, pk: Option<NodeKind>, pred: Entry -> bool, i: nat, j: nat)
    requires i < j < |AllWhere(ns, pk, pred)|
    ensures Before(AllWhere(ns, pk, pred)[i], AllWhere(ns, pk, pred)[j])
  {
    AllWhereSorted(ns, pk, pred);
  }

  /** The first node in document order whose entry satisfies `pred`. */
  function FirstWhere(ns: seq<Node>, pk: Option<NodeKind>, pred: Entry -> bool): (r: Option<Path>)
    ensures r.Some? ==> ValidPath(ns, r.value) && pred(EntryAt(ns, r.value, pk))
    ensures r.None? <==> forall e :: e in Entries(ns, pk) ==> !pred(e)
  {
    var all := AllWhere(ns, pk, pred);
    if all == [] then
      assert forall e :: e in Entries(ns, pk) ==> !pred(e) by {
        forall e | e in Entries(ns, pk) ensures !pred(e) {
          if pred(e) { var k := AllWhereComplete(ns, pk, pred, e); }
        }
      }
      None
    else
      AllWhereSoundAt(ns, pk, pred, 0);
      EntryAtIn(ns, all[0], pk);
      Some(all[0])
  }

  // ---------------------------------------------------------------------------
  // Identities

  /** No two recorded nodes share an identity. */
  ghost predicate UniqueUids(m: multiset<Entry>) {
    && (forall e :: m[e] <= 1)
    && (forall a, b :: a in m && b in m && a.uid == b.uid ==> a == b)
  }

  ghost predicate UidsBelow(m: multiset<Entry>, bound: nat) {
    forall e :: e in m ==> e.uid < bound
  }

  ghost predicate UidsFrom(m: multiset<Entry>, lo: nat, hi: nat) {
    forall e :: e in m ==> lo <= e.uid < hi
  }

  predicate HasUid(m: multiset<Entry>, u: nat) {
    exists e :: e in m && e.uid == u
  }

  /** Taking entries out of a tree and putting in entries with identities no
      tree node had keeps identities unique. */
  lemma UniqueAfterSwap(m: multiset<Entry>, gone: multiset<Entry>, added: multiset<Entry>, lo: nat, hi: nat)
    requires UniqueUids(m) && UidsBelow(m, lo) && gone <= m
    requires UniqueUids(added) && UidsFrom(added, lo, hi) && lo <= hi
    ensures UniqueUids(m - gone + added) && UidsBelow(m - gone + added, hi)
  {
    var r := m - gone + added;
    forall e ensures r[e] <= 1 {
      if e in added {
        assert e !in m;
      }
    }
  }

  /** Identities renumbered from `next` onward, in document order; kinds and
      shape are unchanged. This is how freshly parsed nodes get identities no
      node of the document has. */
  function Renumber(ns: seq<Node>, next: nat): (r: (seq<Node>, nat))
    ensures r.1 >= next
    ensures Anon(r.0) == Anon(ns)
    decreases ns
  {
    if ns == [] then ([], next)
    else
      var (kids, n1) := Renumber(ns[0].children, next + 1);
      var (rest, n2) := Renumber(ns[1..], n1);
      assert ([Node(next, ns[0].kind, kids)] + rest)[1..] == rest;
      ([Node(next, ns[0].kind, kids)] + rest, n2)
  }

  /** A forest with every identity erased: its shape, kinds and text. */
  function Anon(ns: seq<Node>): (r: seq<Node>)
    ensures |r| == |ns|
    decreases ns
  {
    if ns == [] then [] else [Node(0, ns[0].kind, Anon(ns[0].children))] + Anon(ns[1..])
  }

  /** Renumbered nodes have pairwise distinct identities in the allotted range. */
  lemma {:induction false} RenumberFresh(ns: seq<Node>, next: nat, pk: Option<NodeKind>)
    ensures UniqueUids(Entries(Renumber(ns, next).0, pk))
    ensures UidsFrom(Entries(Renumber(ns, next).0, pk), next, Renumber(ns, next).1)
    decreases ns
  {
    if ns != [] {
      var kr := Renumber(ns[0].children, next + 1);
      var rr := Renumber(ns[1..], kr.1);
      var r := [Node(next, ns[0].kind, kr.0)] + rr.0;
      assert Renumber(ns, next) == (r, rr.1);
      RenumberFresh(ns[0].children, next + 1, Some(ns[0].kind));
      RenumberFresh(ns[1..], kr.1, pk);
      assert r[0] == Node(next, ns[0].kind, kr.0) && r[1..] == rr.0;
      var top := multiset{Entry(next, ns[0].kind, pk)};
      var mk := Entries(kr.0, Some(ns[0].kind));
      var mr := Entries(rr.0, pk);
      assert Entries(r, pk) == top + mk + mr;
      UniqueDisjoint(top, mk, next, next + 1, kr.1);
      UniqueDisjoint(top + mk, mr, next, kr.1, rr.1);
    }
  }

  /** Two identity-unique multisets over disjoint ranges make one. */
  lemma UniqueDisjoint(a: multiset<Entry>, b: multiset<Entry>, lo: nat, mid: nat, hi: nat)
    requires lo <= mid <= hi
    requires UniqueUids(a) && UidsFrom(a, lo, mid)
    requires UniqueUids(b) && UidsFrom(b, mid, hi)
    ensures UniqueUids(a + b) && UidsFrom(a + b, lo, hi)
  {
    forall e ensures (a + b)[e] <= 1 {
      if e in b { assert e !in a; }
    }
  }

  // ---------------------------------------------------------------------------
  // The document

  /** The document body (the root every lookup starts from) and the next fresh
      identity the host will hand out. */
  datatype Doc = Doc(body: Node, nextUid: nat)

  function Tree(d: Doc): seq<Node> {
    [d.body]
  }

  function AllEntries(d: Doc): multiset<Entry> {
    Entries(Tree(d), None)
  }

  /** A well-formed document: the body is a named element, node identities are
      unique and all below `nextUid`. */
  ghost predicate DocValid(d: Doc) {
    && d.body.kind.Element? && d.body.kind.tag != ""
    && UniqueUids(AllEntries(d))
    && UidsBelow(AllEntries(d), d.nextUid)
  }

  /** Positions strictly inside the body: where the engine's markers live. */
  predicate InBody(d: Doc, q: Path) {
    |q| >= 2 && ValidPath(Tree(d), q)
  }

  /** The parent of a node strictly inside the body. */
  function ParentNode(d: Doc, q: Path): (r: Node)
    requires InBody(d, q)
    ensures ValidPath(Tree(d), Parent(q)) && r == At(Tree(d), Parent(q))
    ensures Last(q) < |r.children| && r.children[Last(q)] == At(Tree(d), q)
  {
    PrefixValid(Tree(d), q, |q| - 1);
    AtChild(Tree(d), Parent(q), Last(q));
    assert Parent(q) + [Last(q)] == q;
    At(Tree(d), Parent(q))
  }

  /** A position strictly inside the body, seen from the body's child list. */
  lemma BodyPath(d: Doc, q: Path)
    requires InBody(d, q)
    ensures q == [0] + q[1..] && ValidPath(d.body.children, q[1..])
    ensures At(Tree(d), q) == At(d.body.children, q[1..])
    ensures EntryAt(Tree(d), q, None) == EntryAt(d.body.children, q[1..], Some(d.body.kind))
  {
  }

  /** The first node strictly inside the body, in document order, whose entry
      satisfies `pred`. */
  function FindInBody(d: Doc, pred: Entry -> bool): (r: Option<Path>)
    ensures r.Some? ==> InBody(d, r.value) && pred(EntryAt(Tree(d), r.value, None))
    ensures r.None? <==> forall q :: InBody(d, q) ==> !pred(EntryAt(Tree(d), q, None))
    ensures r.Some? ==> forall q :: InBody(d, q) && Before(q, r.value) ==> !pred(EntryAt(Tree(d), q, None))
  {
    var all := AllWhere(d.body.children, Some(d.body.kind), pred);
    if all == [] then
      assert forall q :: InBody(d, q) ==> !pred(EntryAt(Tree(d), q, None)) by {
        forall q | InBody(d, q) ensures !pred(EntryAt(Tree(d), q, None)) {
          BodyPath(d, q);
          if pred(EntryAt(Tree(d), q, None)) {
            var k := AllWhereHasPath(d.body.children, Some(d.body.kind), pred, q[1..]);
          }
        }
      }
      None
    else
      AllWhereSoundAt(d.body.children, Some(d.body.kind), pred, 0);
      UnderOne(Tree(d), None, all[0]);
      FirstInBody(d, pred);
      Some([0] + all[0])
  }

  /** No node before the search's first match, in document order, satisfies `pred`. */
  lemma FirstInBody(d: Doc, pred: Entry -> bool)
    requires AllWhere(d.body.children, Some(d.body.kind), pred) != []
    ensures var first := [0] + AllWhere(d.body.children, Some(d.body.kind), pred)[0];
      forall q :: InBody(d, q) && Before(q, first) ==> !pred(EntryAt(Tree(d), q, None))
  {
    var all := AllWhere(d.body.children, Some(d.body.kind), pred);
    forall q | InBody(d, q) && Before(q, [0] + all[0]) ensures !pred(EntryAt(Tree(d), q, None)) {
      BodyPath(d, q);
      if pred(EntryAt(Tree(d), q, None)) {
        var k := AllWhereHasPath(d.body.children, Some(d.body.kind), pred, q[1..]);
        BeforeUnderBack(0, q[1..], all[0]);
        if k > 0 {
          AllWhereOrdered(d.body.children, Some(d.body.kind), pred, 0, k);
        }
        BeforeAsym(q[1..], all[0]);
      }
    }
  }

  /** The matches strictly inside the body are listed in document order. */
  lemma BodySearchSorted(d: Doc, pred: Entry -> bool)
    ensures Sorted(Under(0, AllWhere(d.body.children, Some(d.body.kind), pred)))
  {
    AllWhereSorted(d.body.children, Some(d.body.kind), pred);
    UnderSorted(AllWhere(d.body.children, Some(d.body.kind), pred));
  }

  /** Every match strictly inside the body is listed. */
  lemma BodySearchHas(d: Doc, pred: Entry -> bool, q: Path)
    requires InBody(d, q) && pred(EntryAt(Tree(d), q, None))
    ensures q in Under(0, AllWhere(d.body.children, Some(d.body.kind), pred))
  {
    var all := AllWhere(d.body.children, Some(d.body.kind), pred);
    BodyPath(d, q);
    var k := AllWhereHasPath(d.body.children, Some(d.body.kind), pred, q[1..]);
    UnderAt(0, all, k);
    assert Under(0, all)[k] == q;
  }

  /** The node with identity `u` is a descendant of the body (what
      `document.body.compareDocumentPosition(n) & 16` tests). */
  ghost predicate ContainsUid(d: Doc, u: nat) {
    exists q :: InBody(d, q) && At(Tree(d), q).uid == u
  }

  /** The position of the node with identity `u`, if the body contains it. */
  function PathOfUid(d: Doc, u: nat): (r: Option<Path>)
    ensures r.Some? ==> InBody(d, r.value) && At(Tree(d), r.value).uid == u
    ensures r.None? <==> !ContainsUid(d, u)
  {
    FindInBody(d, (e: Entry) => e.uid == u)
  }

  /** In a well-formed document an identity names one position. */
  lemma UidFixesPath(d: Doc, p: Path, q: Path)
    requires DocValid(d) && ValidPath(Tree(d), p) && ValidPath(Tree(d), q)
    requires At(Tree(d), p).uid == At(Tree(d), q).uid
    ensures p == q
  {
    if p != q {
      TwoEntries(Tree(d), None, p, q);
      assert false;
    }
  }

  /** Two different positions contribute two entries. */
  lemma {:induction false} TwoEntries(ns: seq<Node>, pk: Option<NodeKind>, p: Path, q: Path)
    requires ValidPath(ns, p) && ValidPath(ns, q) && p != q
    ensures multiset{EntryAt(ns, p, pk), EntryAt(ns, q, pk)} <= Entries(ns, pk)
    decreases ns, 1
  {
    var top := multiset{Entry(ns[0].uid, ns[0].kind, pk)};
    var kids := Entries(ns[0].children, Some(ns[0].kind));
    var rest := Entries(ns[1..], pk);
    var pa := EntryPart(ns, pk, p);
    var pb := EntryPart(ns, pk, q);
    if pa == 1 && pb == 1 {
      TwoEntriesBelow(ns, pk, p, q);
    } else if pa == 2 && pb == 2 {
      TwoEntriesAfter(ns, pk, p, q);
    } else {
      var parts := [top, kids, rest];
      PairInParts(EntryAt(ns, p, pk), EntryAt(ns, q, pk), parts[pa], parts[pb], top, kids, rest);
    }
  }

  lemma {:induction false} TwoEntriesBelow(ns: seq<Node>, pk: Option<NodeKind>, p: Path, q: Path)
    requires ValidPath(ns, p) && ValidPath(ns, q) && p != q
    requires p[0] == 0 && |p| > 1 && q[0] == 0 && |q| > 1
    ensures multiset{EntryAt(ns, p, pk), EntryAt(ns, q, pk)} <= Entries(ns, pk)
    decreases ns, 0
  {
    assert p == [0] + p[1..] && q == [0] + q[1..];
    TwoEntries(ns[0].children, Some(ns[0].kind), p[1..], q[1..]);
  }

  lemma {:induction false} TwoEntriesAfter(ns: seq<Node>, pk: Option<NodeKind>, p: Path, q: Path)
    requires ValidPath(ns, p) && ValidPath(ns, q) && p != q && p[0] > 0 && q[0] > 0
    ensures multiset{EntryAt(ns, p, pk), EntryAt(ns, q, pk)} <= Entries(ns, pk)
    decreases ns, 0
  {
    var p' := [p[0] - 1] + p[1..];
    var q' := [q[0] - 1] + q[1..];
    var pa := EntryPart(ns, pk, p);
    var pb := EntryPart(ns, pk, q);
    assert p'[1..] == p[1..] && q'[1..] == q[1..];
    TwoEntries(ns[1..], pk, p', q');
  }

  /** Which part of a forest's entries holds the entry at `p`: 0 for the first
      node itself, 1 for its subtree, 2 for the later siblings. */
  lemma EntryPart(ns: seq<Node>, pk: Option<NodeKind>, p: Path) returns (part: nat)
    requires ValidPath(ns, p)
    ensures part < 3
    ensures part == 0 <==> p == [0]
    ensures part == 0 ==> EntryAt(ns, p, pk) == Entry(ns[0].uid, ns[0].kind, pk)
    ensures part == 1 <==> p[0] == 0 && |p| > 1
    ensures part == 1 ==>
      && ValidPath(ns[0].children, p[1..])
      && EntryAt(ns, p, pk) == EntryAt(ns[0].children, p[1..], Some(ns[0].kind))
      && EntryAt(ns, p, pk) in Entries(ns[0].children, Some(ns[0].kind))
    ensures part == 2 <==> p[0] > 0
    ensures part == 2 ==>
      && ValidPath(ns[1..], [p[0] - 1] + p[1..])
      && EntryAt(ns, p, pk) == EntryAt(ns[1..], [p[0] - 1] + p[1..], pk)
      && EntryAt(ns, p, pk) in Entries(ns[1..], pk)
  {
    if p == [0] {
      part := 0;
    } else if p[0] == 0 {
      part := 1;
      EntryAtIn(ns[0].children, p[1..], Some(ns[0].kind));
    } else {
      part := 2;
      var p' := [p[0] - 1] + p[1..];
      assert p'[1..] == p[1..] && ns[1..][p'[0]] == ns[p[0]];
      assert ValidPath(ns[1..], p');
      LaterOne(ns, pk, p');
      assert Shift(p') == p;
      EntryAtIn(ns[1..], p', pk);
    }
  }

  lemma PairInParts(a: Entry, b: Entry, x: multiset<Entry>, y: multiset<Entry>,
                    top: multiset<Entry>, kids: multiset<Entry>, rest: multiset<Entry>)
    requires a in x && b in y
    requires (x == top && y == kids) || (x == kids && y == top) || (x == top && y == rest)
          || (x == rest && y == top) || (x == kids && y == rest) || (x == rest && y == kids)
    ensures multiset{a, b} <= top + kids + rest
  {
  }
}
