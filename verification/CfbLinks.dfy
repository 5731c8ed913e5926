/** The directory tree of a compound file: every storage points to the balanced tree of its ordered children. */
module CfbLinks {
  import opened CfbEntry
  import opened CfbTree

  ghost predicate Positions(order: seq<nat>, n: nat) {
    forall i :: 0 <= i < |order| ==> order[i] < n
  }

  /** The numbers at the given positions. */
  function Pick(tops: seq<nat>, order: seq<nat>): (picked: seq<nat>)
    requires Positions(order, |tops|)
    ensures |picked| == |order|
  {
    seq<nat>(|order|, i requires 0 <= i < |order| => tops[order[i]])
  }

  /** The sibling tree of the children whose numbers are `tops`. */
  ghost function SiblingTree(upper: string -> string, children: seq<Entry>, tops: seq<nat>): Tree
    requires |tops| == |children|
  {
    Balanced(Pick(tops, Sorted(upper, children)), 0)
  }

  /** Entry `sid` points to the red-black tree of its children in name order. Only storages have children in the file. */
  ghost predicate LinkOk(upper: string -> string, e: Entry, tops: seq<nat>, links: seq<Link>, sid: nat) {
    && |tops| == |e.children| && sid < |links|
    && if IsStorage(e) && e.children != [] then
         var t := SiblingTree(upper, e.children, tops);
         links[sid].child == RootSid(t) && Linked(links, t) && RedBlack(links, t)
       else links[sid].child == CfbTree.NOSTREAM
  }

  ghost predicate LinkedUp(upper: string -> string, nodes: seq<Entry>, kids: seq<seq<nat>>, links: seq<Link>) {
    && |kids| == |nodes| && |links| == |nodes|
    && forall sid :: 0 <= sid < |nodes| ==> LinkOk(upper, nodes[sid], kids[sid], links, sid)
  }

  // ---------------------------------------------------------------- reading order of a balanced tree

  /** The order in which a stack visits a tree: the node, its right side, its left side. */
  ghost function Visit(t: Tree): seq<nat> {
    if t.Nil? then [] else [t.sid] + Visit(t.right) + Visit(t.left)
  }

  lemma {:induction false} VisitBalanced(sids: seq<nat>, level: nat)
    ensures Visit(Balanced(sids, level)) == ReadOrder(sids)
    decreases |sids|
  {
    if sids != [] {
      VisitBalanced(sids[..|sids| / 2], level + 1);
      VisitBalanced(sids[|sids| / 2 + 1..], level + 1);
    }
  }

  lemma {:induction false} PositionsPart(order: seq<nat>, n: nat, lo: nat, hi: nat)
    requires Positions(order, n) && lo <= hi <= |order|
    ensures Positions(order[lo..hi], n)
  {
  }

  lemma {:induction false} PickJoin(tops: seq<nat>, a: seq<nat>, b: seq<nat>)
    requires Positions(a, |tops|) && Positions(b, |tops|)
    ensures Positions(a + b, |tops|) && Pick(tops, a + b) == Pick(tops, a) + Pick(tops, b)
  {
  }

  lemma {:induction false} PickPart(tops: seq<nat>, order: seq<nat>, lo: nat, hi: nat)
    requires Positions(order, |tops|) && lo <= hi <= |order|
    ensures Positions(order[lo..hi], |tops|) && Pick(tops, order)[lo..hi] == Pick(tops, order[lo..hi])
  {
  }

  /** Reading order commutes with renumbering. */
  lemma {:induction false} ReadOrderPick(tops: seq<nat>, order: seq<nat>)
    requires Positions(order, |tops|)
    ensures Positions(ReadOrder(order), |tops|) && ReadOrder(Pick(tops, order)) == Pick(tops, ReadOrder(order))
    decreases |order|
  {
    hide *;
    ReadOrderSteps(order);
    ReadOrderSteps(Pick(tops, order));
    if order != [] {
      var mid := |order| / 2;
      PickHalves(tops, order);
      ReadOrderPick(tops, order[mid + 1..]);
      ReadOrderPick(tops, order[..mid]);
      var one: seq<nat> := [order[mid]];
      PickJoin(tops, one, ReadOrder(order[mid + 1..]));
      PickJoin(tops, one + ReadOrder(order[mid + 1..]), ReadOrder(order[..mid]));
    } else {
      PickNone(tops);
    }
  }

  lemma {:induction false} PickNone(tops: seq<nat>)
    ensures Positions([], |tops|) && Pick(tops, []) == []
  {
  }

  lemma {:induction false} ReadOrderSteps(s: seq<nat>)
    ensures ReadOrder(s) == if s == [] then [] else [s[|s| / 2]] + ReadOrder(s[|s| / 2 + 1..]) + ReadOrder(s[..|s| / 2])
  {
  }

  lemma {:induction false} PickHalves(tops: seq<nat>, order: seq<nat>)
    requires Positions(order, |tops|) && order != []
    ensures var mid := |order| / 2;
            && Positions(order[..mid], |tops|) && Positions(order[mid + 1..], |tops|) && Positions([order[mid]], |tops|)
            && Pick(tops, order)[..mid] == Pick(tops, order[..mid])
            && Pick(tops, order)[mid + 1..] == Pick(tops, order[mid + 1..])
            && [Pick(tops, order)[mid]] == Pick(tops, [order[mid]])
  {
    var mid := |order| / 2;
    PickPart(tops, order, 0, mid);
    PickPart(tops, order, mid + 1, |order|);
    assert order[0..mid] == order[..mid] && order[mid + 1..|order|] == order[mid + 1..];
  }

  // ---------------------------------------------------------------- numbering

  /** The numbers of siblings grow, and stay inside the forest. */
  lemma {:induction false} TopSidsGrow(forest: seq<Entry>, first: nat)
    ensures forall i :: 0 <= i < |forest| ==> first <= TopSids(forest, first)[i] < first + |Nodes(forest)|
    ensures Distinct(TopSids(forest, first))
  {
    if forest != [] {
      TopSidsGrow(forest[1..], first + 1 + |Nodes(forest[0].children)|);
    }
  }

  lemma {:induction false} PickDistinct(tops: seq<nat>, order: seq<nat>)
    requires Distinct(tops) && Distinct(order) && Positions(order, |tops|)
    ensures Distinct(Pick(tops, order))
  {
  }

  /** The ordered numbers of the children, ready to be linked. */
  lemma {:induction false} OrderedSids(upper: string -> string, forest: seq<Entry>, first: nat)
    ensures var tops := TopSids(forest, first); var sids := Pick(tops, Sorted(upper, forest));
            && |sids| == |forest| && Distinct(sids)
            && forall i :: 0 <= i < |sids| ==> first <= sids[i] < first + |Nodes(forest)|
  {
    TopSidsGrow(forest, first);
    SortedIsPermutation(upper, forest, |forest|);
    PickDistinct(TopSids(forest, first), Sorted(upper, forest));
  }
}
