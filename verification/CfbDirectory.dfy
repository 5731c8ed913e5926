/** `write`, first half: numbering the entries and linking every storage to its children (_cfb.py). */
module CfbDirectory {
  import opened Base
  import opened CfbEntry
  import opened CfbLinks

  // ---------------------------------------------------------------- numbering

  lemma {:induction false} NodesAppend(a: seq<Entry>, b: seq<Entry>)
    ensures Nodes(a + b) == Nodes(a) + Nodes(b)
  {
    if a == [] {
      assert a + b == b;
    } else {
      assert (a + b)[1..] == a[1..] + b && (a + b)[0] == a[0];
      NodesAppend(a[1..], b);
      Assoc([a[0]] + Nodes(a[0].children), Nodes(a[1..]), Nodes(b));
    }
  }

  lemma {:induction false} TopSidsAppend(a: seq<Entry>, b: seq<Entry>, first: nat)
    ensures TopSids(a + b, first) == TopSids(a, first) + TopSids(b, first + |Nodes(a)|)
  {
    if a == [] {
      assert a + b == b;
    } else {
      assert (a + b)[1..] == a[1..] + b && (a + b)[0] == a[0];
      TopSidsAppend(a[1..], b, first + 1 + |Nodes(a[0].children)|);
    }
  }

  lemma {:induction false} KidsAppend(a: seq<Entry>, b: seq<Entry>, first: nat)
    ensures Kids(a + b, first) == Kids(a, first) + Kids(b, first + |Nodes(a)|)
  {
    hide *;
    NodesSplit(a);
    if a == [] {
      assert a + b == b;
      assert Kids([], first) == [] by { NoKids(first); }
      assert [] + Kids(b, first) == Kids(b, first);
    } else {
      assert (a + b)[1..] == a[1..] + b && (a + b)[0] == a[0];
      var next: nat := first + 1 + |Nodes(a[0].children)|;
      KidsSplit(a, first);
      KidsSplit(a + b, first);
      KidsAppend(a[1..], b, next);
      Assoc([TopSids(a[0].children, first + 1)] + Kids(a[0].children, first + 1), Kids(a[1..], next),
            Kids(b, first + |Nodes(a)|));
    }
  }

  lemma {:induction false} NodesSplit(forest: seq<Entry>)
    ensures |Nodes(forest)| == if forest == [] then 0 else 1 + |Nodes(forest[0].children)| + |Nodes(forest[1..])|
  {
  }

  /** One more tree in a forest. */
  lemma {:induction false} ForestGrow(a: seq<Entry>, e: Entry, first: nat)
    ensures Nodes(a + [e]) == Nodes(a) + Nodes([e])
    ensures TopSids(a + [e], first) == TopSids(a, first) + [first + |Nodes(a)|]
    ensures Kids(a + [e], first) == Kids(a, first) + Kids([e], first + |Nodes(a)|)
  {
    NodesAppend(a, [e]);
    TopSidsAppend(a, [e], first);
    KidsAppend(a, [e], first);
  }

  lemma {:induction false} OneTree(e: Entry, first: nat)
    ensures Nodes([e]) == [e] + Nodes(e.children)
    ensures Kids([e], first) == [TopSids(e.children, first + 1)] + Kids(e.children, first + 1)
    ensures Nodes([]) == [] && TopSids([], first + 1) == [] && Kids([], first + 1) == []
  {
    assert Nodes([e]) == [e] + Nodes(e.children) + Nodes([]);
    var next := first + 1 + |Nodes(e.children)|;
    assert Kids([e], first) == [TopSids(e.children, first + 1)] + Kids(e.children, first + 1) + Kids([], next);
  }

  /** `number`: append an entry, then everything below it; also note the numbers of its children. */
  method Number(node: Entry, nodes0: seq<Entry>, kids0: seq<seq<nat>>) returns (nodes: seq<Entry>, kids: seq<seq<nat>>)
    requires |kids0| == |nodes0|
    ensures nodes == nodes0 + Nodes([node]) && kids == kids0 + Kids([node], |nodes0|)
    decreases node
  {
    hide *;
    var sid: nat := |nodes0|;
    nodes, kids := nodes0 + [node], kids0 + [[]];
    var own: seq<nat> := [];
    OneTree(node, sid);
    assert node.children[..0] == [];
    ghost var empty: seq<seq<nat>> := [[]];
    ghost var above := |nodes|;
    for i := 0 to |node.children|
      invariant nodes == nodes0 + [node] + Nodes(node.children[..i])
      invariant own == TopSids(node.children[..i], sid + 1)
      invariant kids == kids0 + empty + Kids(node.children[..i], sid + 1)
    {
      var child := node.children[i];
      own := own + [|nodes|];
      ForestGrow(node.children[..i], child, sid + 1);
      assert node.children[..i + 1] == node.children[..i] + [child];
      SameLength(node.children[..i], sid + 1);
      ghost var b, k := Nodes(node.children[..i]), Kids(node.children[..i], sid + 1);
      nodes, kids := Number(child, nodes, kids);
      Assoc(nodes0 + [node], b, Nodes([child]));
      Assoc(kids0 + empty, k, Kids([child], sid + 1 + |b|));
    }
    assert node.children[..|node.children|] == node.children;
    Assoc(nodes0, [node], Nodes(node.children));
    kids := kids[sid := own];
    SetMiddle(kids0, own, Kids(node.children, sid + 1));
  }

  lemma {:induction false} SameLength(forest: seq<Entry>, first: nat)
    ensures |Kids(forest, first)| == |Nodes(forest)| && |TopSids(forest, first)| == |forest|
  {
  }

  lemma {:induction false} SetMiddle(a: seq<seq<nat>>, own: seq<nat>, c: seq<seq<nat>>)
    ensures var empty: seq<seq<nat>> := [[]];
            |a| < |a + empty + c| && (a + empty + c)[|a| := own] == a + ([own] + c)
  {
  }

  // ---------------------------------------------------------------- no entry is anybody else's child

  /** Children have larger numbers than their parent, and no two parents share one. */
  ghost predicate Disjoint(kids: seq<seq<nat>>, first: nat) {
    && (forall i, x :: 0 <= i < |kids| && x in kids[i] ==> first + i < x < first + |kids|)
    && (forall i, j, x :: 0 <= i < j < |kids| && x in kids[i] ==> x !in kids[j])
  }

  ghost predicate NoneOf(kids: seq<seq<nat>>, tops: seq<nat>) {
    forall i, x :: 0 <= i < |kids| && x in kids[i] ==> x !in tops
  }

  lemma {:induction false} TopSidsIn(forest: seq<Entry>, first: nat)
    ensures forall x :: x in TopSids(forest, first) ==> first <= x < first + |Nodes(forest)|
  {
    TopSidsGrow(forest, first);
  }

  lemma {:induction false} KidsDisjoint(forest: seq<Entry>, first: nat)
    ensures Disjoint(Kids(forest, first), first) && NoneOf(Kids(forest, first), TopSids(forest, first))
    decreases forest
  {
    hide *;
    if forest != [] {
      var children, rest := forest[0].children, forest[1..];
      var next: nat := first + 1 + |Nodes(children)|;
      KidsDisjoint(children, first + 1);
      KidsDisjoint(rest, next);
      TopSidsIn(children, first + 1);
      TopSidsIn(rest, next);
      KidsSplit(forest, first);
      SameLength(children, first + 1);
      SameLength(rest, next);
      DisjointJoin(TopSids(children, first + 1), Kids(children, first + 1), TopSids(rest, next), Kids(rest, next), first);
    } else {
      NoKids(first);
    }
  }

  lemma {:induction false} NoKids(first: nat)
    ensures Kids([], first) == []
    ensures Disjoint(Kids([], first), first) && NoneOf(Kids([], first), TopSids([], first))
  {
  }

  lemma {:induction false} KidsSplit(forest: seq<Entry>, first: nat)
    requires forest != []
    ensures var children, rest := forest[0].children, forest[1..];
            var next := first + 1 + |Nodes(children)|;
            && Kids(forest, first) == [TopSids(children, first + 1)] + Kids(children, first + 1) + Kids(rest, next)
            && TopSids(forest, first) == [first] + TopSids(rest, next)
  {
  }

  lemma {:induction false} DisjointJoin(t0: seq<nat>, k1: seq<seq<nat>>, t2: seq<nat>, k2: seq<seq<nat>>, first: nat)
    requires Disjoint(k1, first + 1) && NoneOf(k1, t0)
    requires forall x :: x in t0 ==> first + 1 <= x < first + 1 + |k1|
    requires Disjoint(k2, first + 1 + |k1|) && NoneOf(k2, t2)
    requires forall x :: x in t2 ==> first + 1 + |k1| <= x < first + 1 + |k1| + |k2|
    ensures Disjoint([t0] + k1 + k2, first) && NoneOf([t0] + k1 + k2, [first] + t2)
  {
    var all := [t0] + k1 + k2;
    var mid := 1 + |k1|;
    forall i, x | 0 <= i < |all| && x in all[i]
      ensures first + i < x < first + |all|
      ensures i < mid ==> x < first + mid
      ensures i > 0 ==> x !in t0
      ensures x !in [first] + t2
    {
      if i == 0 {
      } else if i < mid {
        assert all[i] == k1[i - 1];
      } else {
        assert all[i] == k2[i - mid];
      }
    }
    forall i, j, x | 0 <= i < j < |all| && x in all[i]
      ensures x !in all[j]
    {
      if j < mid {
        assert all[j] == k1[j - 1];
        if i > 0 { assert all[i] == k1[i - 1]; }
      } else {
        assert all[j] == k2[j - mid];
        if i >= mid { assert all[i] == k2[i - mid]; }
      }
    }
  }
}
