/** `write`: linking the children of every storage, in place (_cfb.py). */
module CfbLinking {
  import opened CfbEntry
  import opened CfbTree
  import opened CfbLinks
  import opened CfbDirectory

  // ---------------------------------------------------------------- what keeps a tree as it is

  /** The two link tables agree on a set of entries, children aside. */
  ghost predicate Alike(a: seq<Link>, b: seq<Link>, sids: set<nat>) {
    |a| == |b| && forall s: nat :: s in sids && s < |a| ==> b[s] == a[s].(child := b[s].child)
  }

  lemma {:induction false} BlackHeightFrame(a: seq<Link>, b: seq<Link>, t: Tree)
    requires Alike(a, b, Sids(t))
    ensures BlackHeight(a, t) == BlackHeight(b, t)
  {
    if t.Node? {
      BlackHeightFrame(a, b, t.left);
      BlackHeightFrame(a, b, t.right);
    }
  }

  lemma {:induction false} SidsRoot(t: Tree)
    ensures t.Node? ==> t.sid in Sids(t) && Sids(t.left) <= Sids(t) && Sids(t.right) <= Sids(t)
  {
  }

  lemma {:induction false} NoRedRedFrame(a: seq<Link>, b: seq<Link>, t: Tree)
    requires Alike(a, b, Sids(t)) && NoRedRed(a, t)
    ensures NoRedRed(b, t)
  {
    if t.Node? {
      SidsRoot(t);
      SidsRoot(t.left);
      SidsRoot(t.right);
      hide Sids;
      NoRedRedFrame(a, b, t.left);
      NoRedRedFrame(a, b, t.right);
    }
  }

  lemma {:induction false} TreeFrame(a: seq<Link>, b: seq<Link>, t: Tree)
    requires Alike(a, b, Sids(t)) && Linked(a, t) && RedBlack(a, t)
    ensures Linked(b, t) && RedBlack(b, t)
  {
    LinkedFrame(a, b, t);
    BlackHeightFrame(a, b, t);
    NoRedRedFrame(a, b, t);
    SidsRoot(t);
  }

  lemma {:induction false} LinkedTargets(links: seq<Link>, t: Tree)
    requires Linked(links, t)
    ensures RootSid(t) == CfbTree.NOSTREAM || RootSid(t) < |links|
    ensures forall s :: s in Sids(t) ==> s < |links| && Target(links[s].left, |links|) && Target(links[s].right, |links|)
  {
    if t.Node? {
      LinkedTargets(links, t.left);
      LinkedTargets(links, t.right);
    }
  }

  ghost predicate Target(sid: nat, n: nat) { sid == CfbTree.NOSTREAM || sid < n }

  /** Every pointer leads to an entry or nowhere, and every colour is red or black. */
  ghost predicate Bounded(links: seq<Link>) {
    forall s :: 0 <= s < |links| ==>
      Target(links[s].left, |links|) && Target(links[s].right, |links|) && Target(links[s].child, |links|)
      && links[s].color <= BLACK
  }

  // ---------------------------------------------------------------- one storage after another

  /** Entries before `n` are done; later ones have no child yet. */
  ghost predicate DoneUpto(upper: string -> string, nodes: seq<Entry>, kids: seq<seq<nat>>, links: seq<Link>, n: nat) {
    && |kids| == |nodes| && |links| == |nodes| && Bounded(links)
    && (forall s :: 0 <= s < n && s < |nodes| ==> LinkOk(upper, nodes[s], kids[s], links, s))
    && (forall s :: n <= s < |nodes| ==> links[s].child == CfbTree.NOSTREAM)
  }

  /** One list of numbers for every entry, as long as its list of children. */
  ghost predicate Matching(nodes: seq<Entry>, kids: seq<seq<nat>>) {
    |kids| == |nodes| && forall s :: 0 <= s < |nodes| ==> |kids[s]| == |nodes[s].children| && Distinct(kids[s])
  }

  /** The lists of children are those of a numbered forest. */
  ghost predicate Numbered(nodes: seq<Entry>, kids: seq<seq<nat>>) {
    Matching(nodes, kids) && Disjoint(kids, 0)
  }

  lemma {:induction false} MatchingJoin(nodes: seq<Entry>, kids: seq<seq<nat>>, nodes': seq<Entry>, kids': seq<seq<nat>>)
    requires Matching(nodes, kids) && Matching(nodes', kids')
    ensures Matching(nodes + nodes', kids + kids')
  {
    hide Distinct;
  }

  lemma {:induction false} KidsAreTops(forest: seq<Entry>, first: nat)
    ensures Matching(Nodes(forest), Kids(forest, first))
    decreases forest
  {
    hide Matching, Distinct, TopSids;
    if forest != [] {
      var e := forest[0];
      var next := first + 1 + |Nodes(e.children)|;
      KidsAreTops(e.children, first + 1);
      KidsAreTops(forest[1..], next);
      MatchingOne(e, first + 1);
      MatchingJoin([e], [TopSids(e.children, first + 1)], Nodes(e.children), Kids(e.children, first + 1));
      MatchingJoin([e] + Nodes(e.children), [TopSids(e.children, first + 1)] + Kids(e.children, first + 1),
                   Nodes(forest[1..]), Kids(forest[1..], next));
    } else {
      assert Matching([], []) by { MatchingNone(); }
    }
  }

  lemma {:induction false} MatchingNone()
    ensures Matching([], [])
  {
  }

  lemma {:induction false} MatchingOne(e: Entry, first: nat)
    ensures Matching([e], [TopSids(e.children, first)])
  {
    TopSidsGrow(e.children, first);
  }

  lemma {:induction false} NumberedForest(forest: seq<Entry>)
    ensures Numbered(Nodes(forest), Kids(forest, 0))
  {
    hide Nodes, Kids, Distinct, Disjoint, Matching;
    KidsAreTops(forest, 0);
    KidsDisjoint(forest, 0);
  }

  /** The ordered children of entry `s`. */
  ghost function OrderedKids(upper: string -> string, nodes: seq<Entry>, kids: seq<seq<nat>>, s: nat): (sids: seq<nat>)
    requires s < |nodes| == |kids| && |kids[s]| == |nodes[s].children|
    ensures |sids| == |kids[s]|
  {
    SortedIsPermutation(upper, nodes[s].children, |nodes[s].children|);
    Pick(kids[s], Sorted(upper, nodes[s].children))
  }

  lemma {:induction false} NumberedAt(nodes: seq<Entry>, kids: seq<seq<nat>>, s: nat)
    requires Numbered(nodes, kids) && s < |nodes|
    ensures |kids| == |nodes| && |kids[s]| == |nodes[s].children|
    ensures forall x :: x in kids[s] ==> s < x < |kids|
    ensures forall i, x :: 0 <= i < |kids| && i != s && x in kids[i] ==> x !in kids[s]
  {
    forall i, x | 0 <= i < |kids| && i != s && x in kids[i]
      ensures x !in kids[s]
    {
      if s < i && x in kids[s] { assert false; }
    }
  }

  lemma {:induction false} OrderedFacts(upper: string -> string, nodes: seq<Entry>, kids: seq<seq<nat>>, s: nat)
    requires Numbered(nodes, kids) && s < |nodes|
    ensures |kids[s]| == |nodes[s].children|
    ensures var sids := OrderedKids(upper, nodes, kids, s);
            && Distinct(sids) && Within(sids, |nodes|) && (forall x :: x in sids ==> x in kids[s])
            && sids == Pick(kids[s], Sorted(upper, nodes[s].children))
            && (nodes[s].children != [] ==> sids != [])
  {
    NumberedAt(nodes, kids, s);
    SortedIsPermutation(upper, nodes[s].children, |nodes[s].children|);
    PickDistinct(kids[s], Sorted(upper, nodes[s].children));
    PickIn(kids[s], Sorted(upper, nodes[s].children));
  }

  lemma {:induction false} PickIn(tops: seq<nat>, order: seq<nat>)
    requires Positions(order, |tops|)
    ensures forall x :: x in Pick(tops, order) ==> x in tops
  {
    forall x | x in Pick(tops, order)
      ensures x in tops
    {
      var i :| 0 <= i < |order| && Pick(tops, order)[i] == x;
      assert tops[order[i]] == x;
    }
  }

  /** The tree of entry `s` lives on its own children. */
  lemma {:induction false} TreeSids(upper: string -> string, nodes: seq<Entry>, kids: seq<seq<nat>>, s: nat)
    requires Numbered(nodes, kids) && s < |nodes|
    ensures forall x :: x in Sids(Balanced(OrderedKids(upper, nodes, kids, s), 0)) ==> x in kids[s]
  {
    hide Numbered, OrderedKids;
    assert |kids| == |nodes| && |kids[s]| == |nodes[s].children| by { NumberedAt(nodes, kids, s); }
    OrderedFacts(upper, nodes, kids, s);
    InOrderBalanced(OrderedKids(upper, nodes, kids, s), 0);
  }

  lemma {:induction false} LinkKeep(upper: string -> string, e: Entry, tops: seq<nat>, a: seq<Link>, b: seq<Link>, s: nat)
    requires LinkOk(upper, e, tops, a, s) && |a| == |b| && b[s].child == a[s].child
    requires |tops| == |e.children| && Alike(a, b, Sids(SiblingTree(upper, e.children, tops)))
    ensures LinkOk(upper, e, tops, b, s)
  {
    if IsStorage(e) && e.children != [] {
      hide Linked, RedBlack, SiblingTree, Alike;
      TreeFrame(a, b, SiblingTree(upper, e.children, tops));
    }
  }

  /** A change below entry `n` leaves the trees of other entries alone. */
  lemma {:induction false} OthersAlike(upper: string -> string, nodes: seq<Entry>, kids: seq<seq<nat>>, a: seq<Link>, b: seq<Link>, n: nat, s: nat)
    requires Numbered(nodes, kids) && n < |nodes| && s < |nodes| && s != n && |a| == |nodes| && |b| == |a|
    requires forall i :: 0 <= i < |a| && i !in kids[n] && i != n ==> b[i] == a[i]
    requires b[n] == a[n].(child := b[n].child)
    ensures |kids[s]| == |nodes[s].children|
    ensures Alike(a, b, Sids(SiblingTree(upper, nodes[s].children, kids[s])))
  {
    hide Numbered, Disjoint, Matching, Sorted, Balanced, Sids, OrderedKids;
    NumberedAt(nodes, kids, s);
    NumberedAt(nodes, kids, n);
    OrderedFacts(upper, nodes, kids, s);
    TreeSids(upper, nodes, kids, s);
  }

  lemma {:induction false} LinkStep(upper: string -> string, nodes: seq<Entry>, kids: seq<seq<nat>>, a: seq<Link>, b: seq<Link>, c: seq<Link>, n: nat)
    requires Numbered(nodes, kids) && DoneUpto(upper, nodes, kids, a, n) && n < |nodes|
    requires IsStorage(nodes[n]) && nodes[n].children != []
    requires var sids := OrderedKids(upper, nodes, kids, n); var t := Balanced(sids, 0);
             && OnlySiblings(a, b, sids) && Linked(b, t) && RedBlack(b, t)
             && (forall s :: s in sids ==> s < |b| && b[s].color <= BLACK)
             && c == b[n := b[n].(child := RootSid(t))]
    ensures DoneUpto(upper, nodes, kids, c, n + 1)
  {
    NumberedAt(nodes, kids, n);
    hide Numbered, LinkOk, Balanced, Sids, OrderedKids, RedBlack, Linked, Bounded;
    var sids := OrderedKids(upper, nodes, kids, n);
    var t := Balanced(sids, 0);
    OrderedFacts(upper, nodes, kids, n);
    NumberedAt(nodes, kids, n);
    OwnLink(upper, nodes, kids, b, c, n);
    BoundedStep(a, b, c, sids, t, n);
    forall s: nat | s < n
      ensures s < |nodes| && LinkOk(upper, nodes[s], kids[s], c, s)
    {
      OthersAlike(upper, nodes, kids, a, c, n, s);
      LinkKeep(upper, nodes[s], kids[s], a, c, s);
    }
  }

  lemma {:induction false} OwnLink(upper: string -> string, nodes: seq<Entry>, kids: seq<seq<nat>>, b: seq<Link>, c: seq<Link>, n: nat)
    requires Numbered(nodes, kids) && n < |nodes| == |b|
    requires var t := Balanced(OrderedKids(upper, nodes, kids, n), 0);
             Linked(b, t) && RedBlack(b, t) && c == b[n := b[n].(child := RootSid(t))]
    requires IsStorage(nodes[n]) && nodes[n].children != []
    ensures LinkOk(upper, nodes[n], kids[n], c, n)
  {
    hide Numbered, Balanced, Sids, OrderedKids, RedBlack, Linked;
    NumberedAt(nodes, kids, n);
    OrderedFacts(upper, nodes, kids, n);
    TreeFrame(b, c, Balanced(OrderedKids(upper, nodes, kids, n), 0));
  }

  lemma {:induction false} BoundedStep(a: seq<Link>, b: seq<Link>, c: seq<Link>, sids: seq<nat>, t: Tree, n: nat)
    requires Bounded(a) && OnlySiblings(a, b, sids) && t == Balanced(sids, 0) && Linked(b, t) && n < |b|
    requires (forall s :: s in sids ==> s < |b| && b[s].color <= BLACK) && c == b[n := b[n].(child := RootSid(t))]
    ensures Bounded(c)
  {
    hide Balanced, Linked, Sids, RootSid;
    LinkedTargets(b, t);
    InOrderBalanced(sids, 0);
    forall s | 0 <= s < |b|
      ensures Target(b[s].left, |b|) && Target(b[s].right, |b|) && Target(b[s].child, |b|) && b[s].color <= BLACK
    {
      if s in sids { assert s in Sids(t); } else { assert b[s] == a[s]; }
    }
  }

  lemma {:induction false} SkipStep(upper: string -> string, nodes: seq<Entry>, kids: seq<seq<nat>>, links: seq<Link>, n: nat)
    requires Numbered(nodes, kids) && DoneUpto(upper, nodes, kids, links, n) && n < |nodes|
    requires !(IsStorage(nodes[n]) && nodes[n].children != [])
    ensures DoneUpto(upper, nodes, kids, links, n + 1)
  {
    NumberedAt(nodes, kids, n);
    NoneBelow(upper, nodes[n], kids[n], links, n);
    hide LinkOk, Numbered, Bounded;
  }

  lemma {:induction false} NoneBelow(upper: string -> string, e: Entry, tops: seq<nat>, links: seq<Link>, sid: nat)
    requires !(IsStorage(e) && e.children != [])
    ensures LinkOk(upper, e, tops, links, sid)
       <==> |tops| == |e.children| && sid < |links| && links[sid].child == CfbTree.NOSTREAM
  {
    hide Linked, RedBlack, SiblingTree;
  }

  lemma {:induction false} DoneAll(upper: string -> string, nodes: seq<Entry>, kids: seq<seq<nat>>, links: seq<Link>)
    requires DoneUpto(upper, nodes, kids, links, |nodes|)
    ensures LinkedUp(upper, nodes, kids, links) && Bounded(links)
  {
    hide LinkOk, Bounded;
  }

  /** `links[sid][2] = _tree(…)` for every storage that has children. */
  method LinkAll(upper: string -> string, nodes: seq<Entry>, kids: seq<seq<nat>>) returns (links: array<Link>)
    requires Numbered(nodes, kids)
    ensures fresh(links) && LinkedUp(upper, nodes, kids, links[..]) && Bounded(links[..])
  {
    links := new Link[|nodes|](_ => Link(CfbTree.NOSTREAM, CfbTree.NOSTREAM, CfbTree.NOSTREAM, BLACK));
    hide LinkOk, Numbered, OrderedKids, Balanced, Linked, RedBlack;
    assert DoneUpto(upper, nodes, kids, links[..], 0);
    hide DoneUpto;
    for n := 0 to |nodes|
      invariant DoneUpto(upper, nodes, kids, links[..], n)
    {
      OrderedFacts(upper, nodes, kids, n);
      if IsStorage(nodes[n]) && nodes[n].children != [] {
        ghost var a := links[..];
        var ordered := Pick(kids[n], Sorted(upper, nodes[n].children));
        var child := MakeTree(ordered, links);
        ghost var b := links[..];
        links[n] := links[n].(child := child);
        LinkStep(upper, nodes, kids, a, b, links[..], n);
      } else {
        SkipStep(upper, nodes, kids, links[..], n);
      }
    }
    DoneAll(upper, nodes, kids, links[..]);
  }
}
