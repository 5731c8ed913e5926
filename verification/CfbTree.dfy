/** The sibling tree of a compound file (_cfb.py `_tree`): midpoint splitting makes a valid red-black tree.
    [MS-CFB] section 2.6.4. */
module CfbTree {
  import opened Base

  const NOSTREAM: nat := 0xFFFF_FFFF
  const RED: nat := 0
  const BLACK: nat := 1

  /** `[left, right, child, colour]` of one directory entry. */
  datatype Link = Link(left: nat, right: nat, child: nat, color: nat)

  /** A binary tree of directory entries; `level` counts from 0 at the root. */
  datatype Tree = Nil | Node(left: Tree, sid: nat, right: Tree, level: nat)

  // ---------------------------------------------------------------- the shape

  /** Splitting an ordered list in the middle. */
  ghost function Balanced(sids: seq<nat>, level: nat): Tree
    decreases |sids|
  {
    if sids == [] then Nil
    else
      var mid := |sids| / 2;
      Node(Balanced(sids[..mid], level + 1), sids[mid], Balanced(sids[mid + 1..], level + 1), level)
  }

  ghost function RootSid(t: Tree): nat {
    if t.Nil? then NOSTREAM else t.sid
  }

  ghost function InOrder(t: Tree): seq<nat> {
    if t.Nil? then [] else InOrder(t.left) + [t.sid] + InOrder(t.right)
  }

  ghost function Sids(t: Tree): set<nat> {
    if t.Nil? then {} else Sids(t.left) + {t.sid} + Sids(t.right)
  }

  lemma {:induction false} InOrderBalanced(sids: seq<nat>, level: nat)
    ensures InOrder(Balanced(sids, level)) == sids
    ensures forall s :: s in Sids(Balanced(sids, level)) <==> s in sids
    decreases |sids|
  {
    if sids != [] {
      var mid := |sids| / 2;
      InOrderBalanced(sids[..mid], level + 1);
      InOrderBalanced(sids[mid + 1..], level + 1);
      assert sids == sids[..mid] + [sids[mid]] + sids[mid + 1..];
    }
  }

  /** The links hold the left and right pointers of the tree. */
  ghost predicate Linked(links: seq<Link>, t: Tree) {
    t.Node? ==>
      && t.sid < |links|
      && links[t.sid].left == RootSid(t.left) && links[t.sid].right == RootSid(t.right)
      && Linked(links, t.left) && Linked(links, t.right)
  }

  /** Changing entries outside the tree, or anything but the pointers, leaves it linked. */
  lemma {:induction false} LinkedFrame(links: seq<Link>, links': seq<Link>, t: Tree)
    requires Linked(links, t) && |links'| == |links|
    requires forall s :: s in Sids(t) && s < |links| ==> links'[s].left == links[s].left && links'[s].right == links[s].right
    ensures Linked(links', t)
  {
    if t.Node? {
      LinkedFrame(links, links', t.left);
      LinkedFrame(links, links', t.right);
    }
  }

  // ---------------------------------------------------------------- levels

  function Pow2(n: nat): nat {
    if n == 0 then 1 else 2 * Pow2(n - 1)
  }

  lemma {:induction false} Pow2Monotone(a: nat, b: nat)
    requires a <= b
    ensures 1 <= Pow2(a) <= Pow2(b)
    decreases b
  {
    if a == b {
      if a > 0 { Pow2Monotone(a - 1, a - 1); }
    } else {
      Pow2Monotone(a, b - 1);
    }
  }

  /** The deepest level of a tree that begins at `level`. */
  ghost function Deepest(t: Tree): nat
    requires t.Node?
  {
    var l := if t.left.Node? then Deepest(t.left) else t.level;
    var r := if t.right.Node? then Deepest(t.right) else t.level;
    Max(t.level, Max(l, r))
  }

  lemma {:induction false} BalancedNode(sids: seq<nat>, level: nat)
    requires sids != []
    ensures var mid := |sids| / 2;
            mid < |sids| && Balanced(sids, level)
              == Node(Balanced(sids[..mid], level + 1), sids[mid], Balanced(sids[mid + 1..], level + 1), level)
    ensures forall s: seq<nat>, l: nat :: (Balanced(s, l).Node? <==> s != []) && (s != [] ==> Balanced(s, l).level == l)
  {
  }

  lemma {:induction false} DeepestNode(left: Tree, sid: nat, right: Tree, level: nat)
    ensures var d := Deepest(Node(left, sid, right, level));
            && level <= d
            && (left.Node? ==> Deepest(left) <= d) && (right.Node? ==> Deepest(right) <= d)
            && (d == level || (left.Node? && d == Deepest(left)) || (right.Node? && d == Deepest(right)))
  {
  }

  /** Midpoint splitting makes the tree as flat as it can be. */
  lemma {:induction false} DeepestBalanced(sids: seq<nat>, level: nat)
    requires sids != []
    ensures var d := Deepest(Balanced(sids, level));
            level <= d && Pow2(d - level) <= |sids| < Pow2(d - level + 1)
    decreases |sids|
  {
    hide Balanced, Deepest;
    var mid := |sids| / 2;
    var left, right := sids[..mid], sids[mid + 1..];
    BalancedNode(sids, level);
    DeepestNode(Balanced(left, level + 1), sids[mid], Balanced(right, level + 1), level);
    if mid > 0 {
      DeepestBalanced(left, level + 1);
      var dl := Deepest(Balanced(left, level + 1));
      if right != [] {
        DeepestBalanced(right, level + 1);
        NotDeeper(|left|, |right|, dl - level - 1, Deepest(Balanced(right, level + 1)) - level - 1);
      }
      DoubleBounds(|sids|, dl - level - 1);
    } else {
      assert Pow2(0) == 1 && Pow2(1) == 2;
    }
  }

  /** Half the entries span one level less. */
  lemma {:induction false} DoubleBounds(n: nat, h: nat)
    requires Pow2(h) <= n / 2 < Pow2(h + 1)
    ensures Pow2(h + 1) <= n < Pow2(h + 2)
  {
    assert Pow2(h + 2) == 2 * Pow2(h + 1) && Pow2(h + 1) == 2 * Pow2(h);
  }

  /** Fewer entries do not go deeper. */
  lemma {:induction false} NotDeeper(m: nat, n: nat, h: nat, k: nat)
    requires n <= m < Pow2(h + 1) && Pow2(k) <= n
    ensures k <= h
  {
    if k > h { Pow2Monotone(h + 1, k); }
  }

  // ---------------------------------------------------------------- red-black

  /** The colour `_tree` gives to a node: the deepest level is red unless it is full. */
  ghost function ColorAt(red: nat, level: nat): nat { if level == red then RED else BLACK }

  /** The number of black nodes on every way down to a missing child, if it is the same on all of them. */
  ghost function BlackHeight(links: seq<Link>, t: Tree): int
    ensures BlackHeight(links, t) >= -1
  {
    if t.Nil? then 0
    else
      var l, r := BlackHeight(links, t.left), BlackHeight(links, t.right);
      if t.sid >= |links| || l < 0 || l != r then -1
      else l + if links[t.sid].color == BLACK then 1 else 0
  }

  ghost predicate NoRedRed(links: seq<Link>, t: Tree) {
    t.Node? ==>
      && t.sid < |links|
      && (links[t.sid].color == RED ==>
            (t.left.Node? ==> t.left.sid < |links| && links[t.left.sid].color == BLACK)
            && (t.right.Node? ==> t.right.sid < |links| && links[t.right.sid].color == BLACK))
      && NoRedRed(links, t.left) && NoRedRed(links, t.right)
  }

  /** A red-black tree: black root, no red node with a red child, equally many black nodes on every path. */
  ghost predicate RedBlack(links: seq<Link>, t: Tree) {
    && t.Node? && t.sid < |links| && links[t.sid].color == BLACK
    && NoRedRed(links, t)
    && BlackHeight(links, t) >= 0
  }

  /** Every node of the tree is coloured by its level. */
  ghost predicate Colored(links: seq<Link>, t: Tree, red: nat) {
    t.Node? ==>
      && t.sid < |links| && links[t.sid].color == ColorAt(red, t.level)
      && Colored(links, t.left, red) && Colored(links, t.right, red)
  }

  lemma {:induction false} BlackHeightBalanced(links: seq<Link>, sids: seq<nat>, level: nat, red: nat)
    requires level <= red && Pow2(red - level) - 1 <= |sids| <= Pow2(red - level + 1) - 1
    requires Colored(links, Balanced(sids, level), red)
    ensures BlackHeight(links, Balanced(sids, level)) == red - level
    ensures NoRedRed(links, Balanced(sids, level))
    decreases red - level
  {
    hide Balanced, Colored, BlackHeight, NoRedRed, Pow2;
    HalvesFit(|sids|, red - level);
    if sids == [] {
      BalancedEmpty(level);
      BlackHeightNil(links);
    } else {
      var mid := |sids| / 2;
      var left, right := sids[..mid], sids[mid + 1..];
      BalancedNode(sids, level);
      ColoredNode(links, Balanced(left, level + 1), sids[mid], Balanced(right, level + 1), level, red);
      if level == red {
        assert left == [] && right == [];
        BalancedEmpty(level + 1);
        BlackHeightNil(links);
      } else {
        BlackHeightBalanced(links, left, level + 1, red);
        BlackHeightBalanced(links, right, level + 1, red);
      }
    }
  }

  /** A list that fills `h` levels, and at most one more, splits into halves that do so one level less. */
  lemma {:induction false} HalvesFit(n: nat, h: nat)
    requires Pow2(h) - 1 <= n <= Pow2(h + 1) - 1
    ensures n == 0 ==> h == 0
    ensures h == 0 ==> n <= 1
    ensures h > 0 ==> n > 0 && Pow2(h - 1) - 1 <= n - n / 2 - 1 && n / 2 <= Pow2(h) - 1
  {
    assert Pow2(h + 1) == 2 * Pow2(h);
    if h > 0 {
      assert Pow2(h) == 2 * Pow2(h - 1);
      Pow2Monotone(0, h - 1);
    } else {
      assert Pow2(0) == 1;
    }
  }

  lemma {:induction false} BlackHeightNil(links: seq<Link>)
    ensures BlackHeight(links, Nil) == 0 && NoRedRed(links, Nil)
  {
  }

  /** What the colour of a node means for its black height. */
  lemma {:induction false} ColoredNode(links: seq<Link>, left: Tree, sid: nat, right: Tree, level: nat, red: nat)
    requires Colored(links, Node(left, sid, right, level), red)
    requires left.Node? ==> left.level == level + 1
    requires right.Node? ==> right.level == level + 1
    ensures Colored(links, left, red) && Colored(links, right, red)
    ensures var h, k := BlackHeight(links, left), BlackHeight(links, right);
            h >= 0 && h == k ==>
              BlackHeight(links, Node(left, sid, right, level)) == h + if level == red then 0 else 1
    ensures NoRedRed(links, left) && NoRedRed(links, right) ==> NoRedRed(links, Node(left, sid, right, level))
  {
  }

  /** The level painted red, from the number of entries: the deepest one unless it is full. */
  ghost function RedLevel(sids: seq<nat>): nat
    requires sids != []
  {
    var deepest := Deepest(Balanced(sids, 0));
    if |sids| == Pow2(deepest + 1) - 1 then deepest + 1 else deepest
  }

  /** Painting the deepest level red, unless it is full, makes any midpoint tree a red-black tree. */
  lemma {:induction false} MidpointIsRedBlack(links: seq<Link>, sids: seq<nat>)
    requires sids != [] && Colored(links, Balanced(sids, 0), RedLevel(sids))
    ensures RedBlack(links, Balanced(sids, 0))
  {
    DeepestBalanced(sids, 0);
    var deepest := Deepest(Balanced(sids, 0));
    assert Pow2(deepest + 2) == 2 * Pow2(deepest + 1);
    BlackHeightBalanced(links, sids, 0, RedLevel(sids));
    if deepest == 0 {
      assert Pow2(1) == 2 * Pow2(0) && Pow2(0) == 1;
    }
  }

  // ---------------------------------------------------------------- building it in place

  lemma {:induction false} BalancedEmpty(level: nat)
    ensures Balanced([], level) == Nil
  {
  }

  /** A map from entries to levels that is right for the whole tree. */
  ghost predicate Agrees(depth: map<nat, nat>, t: Tree) {
    t.Node? ==> t.sid in depth && depth[t.sid] == t.level && Agrees(depth, t.left) && Agrees(depth, t.right)
  }

  lemma {:induction false} AgreesFrame(depth: map<nat, nat>, depth': map<nat, nat>, t: Tree)
    requires Agrees(depth, t) && forall s :: s in Sids(t) && s in depth ==> s in depth' && depth'[s] == depth[s]
    ensures Agrees(depth', t)
  {
    if t.Node? {
      AgreesFrame(depth, depth', t.left);
      AgreesFrame(depth, depth', t.right);
    }
  }

  /** The levels noted for a tree reach exactly down to its deepest node. */
  lemma {:induction false} MaxAgrees(depth: map<nat, nat>, t: Tree)
    requires t.Node? && Agrees(depth, t)
    ensures forall s :: s in Sids(t) ==> s in depth && depth[s] <= Deepest(t)
    ensures exists s :: s in Sids(t) && s in depth && depth[s] == Deepest(t)
  {
    DeepestNode(t.left, t.sid, t.right, t.level);
    assert t.sid in Sids(t) && forall s :: s in Sids(t.left) || s in Sids(t.right) ==> s in Sids(t);
    assert forall s :: s in Sids(t) ==> s in Sids(t.left) || s in Sids(t.right) || s == t.sid;
    if t.left.Node? { MaxAgrees(depth, t.left); }
    if t.right.Node? { MaxAgrees(depth, t.right); }
    hide Deepest;
    if t.left.Node? && Deepest(t.left) == Deepest(t) {
      var s :| s in Sids(t.left) && s in depth && depth[s] == Deepest(t.left);
      assert s in Sids(t);
    } else if t.right.Node? && Deepest(t.right) == Deepest(t) {
      var s :| s in Sids(t.right) && s in depth && depth[s] == Deepest(t.right);
      assert s in Sids(t);
    }
  }

  lemma {:induction false} ColoredIs(links: seq<Link>, depth: map<nat, nat>, t: Tree, red: nat)
    requires Agrees(depth, t)
    requires forall s :: s in Sids(t) ==> s < |links| && s in depth && links[s].color == ColorAt(red, depth[s])
    ensures Colored(links, t, red)
  {
    if t.Node? {
      ColoredIs(links, depth, t.left, red);
      ColoredIs(links, depth, t.right, red);
    }
  }

  ghost predicate Distinct(sids: seq<nat>) {
    forall i, j :: 0 <= i < j < |sids| ==> sids[i] != sids[j]
  }

  /** Only the left and right pointers of the entries in `inside` may have changed. */
  ghost predicate OnlyPointers(a: seq<Link>, b: seq<Link>, inside: set<nat>) {
    && |a| == |b|
    && (forall i :: 0 <= i < |a| ==> b[i].child == a[i].child && b[i].color == a[i].color)
    && (forall i :: 0 <= i < |a| && i !in inside ==> b[i] == a[i])
  }

  /** Linking stays inside its own entries: what was linked apart from them stays linked. */
  lemma {:induction false} PointersKeep(a: seq<Link>, b: seq<Link>, inside: set<nat>, t: Tree)
    requires OnlyPointers(a, b, inside) && Linked(a, t) && inside !! Sids(t)
    ensures Linked(b, t)
  {
    LinkedFrame(a, b, t);
  }

  lemma {:induction false} PointersJoin(a: seq<Link>, b: seq<Link>, c: seq<Link>, m: set<nat>, n: set<nat>, all: set<nat>)
    requires OnlyPointers(a, b, m) && OnlyPointers(b, c, n) && m <= all && n <= all
    ensures OnlyPointers(a, c, all)
  {
  }

  /** Noting a level for some entries keeps the rest. */
  ghost predicate Noted(depth: map<nat, nat>, depth': map<nat, nat>, inside: set<nat>) {
    depth'.Keys == depth.Keys + inside && forall s :: s in depth && s !in inside ==> depth'[s] == depth[s]
  }

  ghost predicate Within(sids: seq<nat>, n: nat) {
    forall s :: s in sids ==> s < n
  }

  ghost predicate SameEntries(t: Tree, sids: seq<nat>) {
    forall s :: s in Sids(t) <==> s in sids
  }

  ghost predicate Apart(left: Tree, sid: nat, right: Tree) {
    sid !in Sids(left) && sid !in Sids(right) && Sids(left) !! Sids(right)
  }

  ghost predicate DepthsUpto(sids: seq<nat>, depth: map<nat, nat>, deepest: nat) {
    forall s :: s in sids ==> s in depth && depth[s] <= deepest
  }

  ghost predicate Painted(sids: seq<nat>, depth: map<nat, nat>, links: seq<Link>, red: nat) {
    forall s :: s in sids ==> s < |links| && s in depth && links[s].color == ColorAt(red, depth[s])
  }

  /** `build`: link the entries `lo..=hi` of the list and note their depth. */
  method Build(sids: seq<nat>, lo: int, hi: int, level: nat, links: array<Link>, depth0: map<nat, nat>, ghost t: Tree)
    returns (root: nat, depth: map<nat, nat>)
    requires 0 <= lo <= hi + 1 <= |sids| && Distinct(sids)
    requires t == Balanced(sids[lo..hi + 1], level)
    requires Within(sids, links.Length)
    modifies links
    ensures && root == RootSid(t) && Linked(links[..], t)
            && OnlyPointers(old(links[..]), links[..], Sids(t))
            && Agrees(depth, t) && Noted(depth0, depth, Sids(t))
    decreases hi + 1 - lo
  {
    hide *;
    depth := depth0;
    if lo > hi {
      assert sids[lo..hi + 1] == [];
      BalancedEmpty(level);
      EmptyBuild(links[..], depth);
      return NOSTREAM, depth;
    }
    var mid := (lo + hi + 1) / 2;
    var sid := sids[mid];
    ghost var tl, tr := MiddleOf(sids, lo, hi, level);
    WithinAt(sids, links.Length, mid);
    ghost var a := links[..];
    depth := depth[sid := level];
    ghost var depth1 := depth;
    var left: nat;
    var right: nat;
    left, depth := Build(sids, lo, mid - 1, level + 1, links, depth, tl);
    ghost var b := links[..];
    ghost var depth2 := depth;
    links[sid] := links[sid].(left := left);
    ghost var c := links[..];
    right, depth := Build(sids, mid + 1, hi, level + 1, links, depth, tr);
    ghost var d := links[..];
    links[sid] := links[sid].(right := right);
    root := sid;
    assert c == b[sid := b[sid].(left := left)];
    assert links[..] == d[sid := d[sid].(right := right)];
    BuildStep(a, b, c, d, links[..], tl, sid, tr, level);
    DepthStep(depth0, depth1, depth2, depth, tl, sid, tr, level);
    RootOf(t);
  }

  lemma {:induction false} EmptyBuild(links: seq<Link>, depth: map<nat, nat>)
    ensures RootSid(Nil) == NOSTREAM && Linked(links, Nil) && OnlyPointers(links, links, Sids(Nil))
    ensures Agrees(depth, Nil) && Noted(depth, depth, Sids(Nil))
  {
  }

  lemma {:induction false} WithinAt(sids: seq<nat>, n: nat, k: nat)
    requires Within(sids, n) && k < |sids|
    ensures sids[k] < n
  {
    assert sids[k] in sids;
  }

  lemma {:induction false} RootOf(t: Tree)
    requires t.Node?
    ensures RootSid(t) == t.sid
  {
  }

  /** The four changes of one call: left side, left pointer, right side, right pointer. */
  lemma {:induction false} BuildStep(a: seq<Link>, b: seq<Link>, c: seq<Link>, d: seq<Link>, e: seq<Link>,
                  left: Tree, sid: nat, right: Tree, level: nat)
    requires sid < |a| && |b| == |a| && |d| == |a|
    requires Apart(left, sid, right)
    requires OnlyPointers(a, b, Sids(left)) && Linked(b, left)
    requires c == b[sid := b[sid].(left := RootSid(left))]
    requires OnlyPointers(c, d, Sids(right)) && Linked(d, right)
    requires e == d[sid := d[sid].(right := RootSid(right))]
    ensures var t := Node(left, sid, right, level);
            Linked(e, t) && OnlyPointers(a, e, Sids(t))
  {
    var t := Node(left, sid, right, level);
    assert Sids(left) <= Sids(t) && Sids(right) <= Sids(t) && {sid} <= Sids(t);
    assert OnlyPointers(b, c, {sid}) && OnlyPointers(d, e, {sid});
    assert d[sid] == c[sid];
    LinkedNode(e, left, sid, right, level);
    hide Linked, Sids, OnlyPointers;
    PointersKeep(b, c, {sid}, left);
    PointersKeep(c, d, Sids(right), left);
    PointersKeep(d, e, {sid}, left);
    PointersKeep(d, e, {sid}, right);
    PointersJoin(a, b, c, Sids(left), {sid}, Sids(t));
    PointersJoin(a, c, d, Sids(t), Sids(right), Sids(t));
    PointersJoin(a, d, e, Sids(t), {sid}, Sids(t));
  }

  lemma {:induction false} DepthStep(depth0: map<nat, nat>, depth1: map<nat, nat>, depth2: map<nat, nat>, depth3: map<nat, nat>,
                  left: Tree, sid: nat, right: Tree, level: nat)
    requires Apart(left, sid, right)
    requires depth1 == depth0[sid := level]
    requires Agrees(depth2, left) && Noted(depth1, depth2, Sids(left))
    requires Agrees(depth3, right) && Noted(depth2, depth3, Sids(right))
    ensures var t := Node(left, sid, right, level);
            Agrees(depth3, t) && Noted(depth0, depth3, Sids(t))
  {
    var t := Node(left, sid, right, level);
    assert Sids(t) == Sids(left) + {sid} + Sids(right);
    AgreesFrame(depth2, depth3, left);
    hide Sids;
    assert depth3[sid] == level;
  }

  lemma {:induction false} LinkedNode(links: seq<Link>, left: Tree, sid: nat, right: Tree, level: nat)
    ensures sid < |links| && links[sid].left == RootSid(left) && links[sid].right == RootSid(right)
            && Linked(links, left) && Linked(links, right)
            ==> Linked(links, Node(left, sid, right, level))
  {
  }

  /** A stretch of a list of distinct entries, split at `mid`. */
  lemma {:induction false} SliceParts(sids: seq<nat>, lo: nat, mid: nat, hi: nat)
    requires lo <= mid < hi <= |sids| && Distinct(sids)
    ensures forall s :: s in sids[mid + 1..hi] ==> s !in sids[lo..mid]
    ensures sids[mid] !in sids[lo..mid] && sids[mid] !in sids[mid + 1..hi] && sids[mid] in sids
  {
    var a, b := sids[lo..mid], sids[mid + 1..hi];
    assert forall i :: 0 <= i < |a| ==> a[i] == sids[lo + i];
    assert forall i :: 0 <= i < |b| ==> b[i] == sids[mid + 1 + i];
  }

  /** The middle entry and the trees of its two sides, which share no entry. */
  lemma {:induction false} MiddleOf(sids: seq<nat>, lo: int, hi: int, level: nat) returns (tl: Tree, tr: Tree)
    requires 0 <= lo <= hi < |sids| && Distinct(sids)
    ensures var mid := (lo + hi + 1) / 2;
            && lo <= mid <= hi && sids[mid] in sids
            && tl == Balanced(sids[lo..mid], level + 1) && tr == Balanced(sids[mid + 1..hi + 1], level + 1)
            && Balanced(sids[lo..hi + 1], level) == Node(tl, sids[mid], tr, level)
            && Apart(tl, sids[mid], tr)
  {
    hide Balanced, Sids, InOrder;
    var mid := (lo + hi + 1) / 2;
    var part := sids[lo..hi + 1];
    tl, tr := Balanced(sids[lo..mid], level + 1), Balanced(sids[mid + 1..hi + 1], level + 1);
    SliceParts(sids, lo, mid, hi + 1);
    assert mid - lo == |part| / 2;
    assert part[..mid - lo] == sids[lo..mid] && part[mid - lo + 1..] == sids[mid + 1..hi + 1];
    BalancedNode(part, level);
    InOrderBalanced(sids[lo..mid], level + 1);
    InOrderBalanced(sids[mid + 1..hi + 1], level + 1);
  }

  /** `max(depth.values())`. */
  method MaxValue(depth: map<nat, nat>) returns (m: nat)
    requires depth != map[]
    ensures exists k :: k in depth && depth[k] == m
    ensures forall k :: k in depth ==> depth[k] <= m
  {
    var todo := depth.Keys;
    var k0 :| k0 in todo;
    m := depth[k0];
    while todo != {}
      invariant todo <= depth.Keys
      invariant exists k :: k in depth && depth[k] == m
      invariant forall k :: k in depth && k !in todo ==> depth[k] <= m
      decreases todo
    {
      var k :| k in todo;
      todo := todo - {k};
      if m < depth[k] { m := depth[k]; }
    }
  }

  /** `1 << n`. */
  method ShiftLeft(n: nat) returns (p: nat)
    ensures p == Pow2(n)
  {
    p := 1;
    for i := 0 to n
      invariant p == Pow2(i)
    {
      p := 2 * p;
    }
  }

  /** Only entries listed may have changed, and never their child. */
  ghost predicate OnlySiblings(a: seq<Link>, b: seq<Link>, sids: seq<nat>) {
    && |a| == |b|
    && (forall i :: 0 <= i < |a| ==> b[i].child == a[i].child)
    && (forall i :: 0 <= i < |a| && i !in sids ==> b[i] == a[i])
  }

  /** `_tree`: link the ordered siblings into a balanced tree, paint it, return its root. */
  method MakeTree(sids: seq<nat>, links: array<Link>) returns (root: nat)
    requires sids != [] && Distinct(sids) && Within(sids, links.Length)
    modifies links
    ensures var t := Balanced(sids, 0);
            root == RootSid(t) && Linked(links[..], t) && RedBlack(links[..], t) && InOrder(t) == sids
    ensures OnlySiblings(old(links[..]), links[..], sids)
    ensures forall s :: s in sids ==> links[s].color <= BLACK
  {
    hide *;
    ghost var t := Balanced(sids, 0);
    ghost var a := links[..];
    ghost var red := WholeTree(sids);
    assert sids[0..|sids|] == sids;
    var depth: map<nat, nat>;
    root, depth := Build(sids, 0, |sids| - 1, 0, links, map[], t);
    ghost var b := links[..];
    var deepest: nat := MaxOf(sids, depth, t);
    var full: nat := ShiftLeft(deepest + 1);
    var perfect := |sids| == full - 1;
    Paint(sids, depth, deepest, perfect, links, t, red);
    PaintedIsColored(links[..], depth, t, red, sids, deepest);
    MidpointIsRedBlack(links[..], sids);
    PaintedColors(sids, depth, links[..], red);
    SiblingsJoin(a, b, links[..], t, sids);
  }

  lemma {:induction false} WholeTree(sids: seq<nat>) returns (red: nat)
    requires sids != []
    ensures var t := Balanced(sids, 0);
            && t.Node? && InOrder(t) == sids && SameEntries(t, sids)
            && red == RedLevel(sids)
            && red == if |sids| == Pow2(Deepest(t) + 1) - 1 then Deepest(t) + 1 else Deepest(t)
  {
    hide Balanced, InOrder, Deepest, Pow2, Sids;
    InOrderBalanced(sids, 0);
    BalancedNode(sids, 0);
    red := RedLevel(sids);
  }

  lemma {:induction false} PaintedColors(sids: seq<nat>, depth: map<nat, nat>, links: seq<Link>, red: nat)
    requires Painted(sids, depth, links, red)
    ensures forall s :: s in sids ==> s < |links| && links[s].color <= BLACK
  {
  }

  lemma {:induction false} PaintedIsColored(links: seq<Link>, depth: map<nat, nat>, t: Tree, red: nat, sids: seq<nat>, deepest: nat)
    requires Agrees(depth, t) && SameEntries(t, sids) && Within(sids, |links|)
    requires DepthsUpto(sids, depth, deepest) && Painted(sids, depth, links, red)
    ensures Colored(links, t, red)
  {
    ColoredIs(links, depth, t, red);
  }

  lemma {:induction false} SiblingsJoin(a: seq<Link>, b: seq<Link>, c: seq<Link>, t: Tree, sids: seq<nat>)
    requires OnlyPointers(a, b, Sids(t)) && OnlySiblings(b, c, sids) && SameEntries(t, sids)
    ensures OnlySiblings(a, c, sids)
  {
  }

  /** The deepest level that was noted. */
  method MaxOf(ghost sids: seq<nat>, depth: map<nat, nat>, ghost t: Tree) returns (deepest: nat)
    requires t.Node? && Agrees(depth, t) && Noted(map[], depth, Sids(t)) && SameEntries(t, sids)
    ensures deepest == Deepest(t)
    ensures DepthsUpto(sids, depth, deepest)
  {
    MaxAgrees(depth, t);
    assert depth.Keys == Sids(t);
    hide Deepest, Sids, Agrees;
    deepest := MaxValue(depth);
  }

  /** Paint the deepest level red unless it is full. */
  method Paint(sids: seq<nat>, depth: map<nat, nat>, deepest: nat, perfect: bool, links: array<Link>, ghost t: Tree, ghost red: nat)
    requires Distinct(sids) && Within(sids, links.Length) && DepthsUpto(sids, depth, deepest)
    requires red == if perfect then deepest + 1 else deepest
    requires Linked(links[..], t)
    modifies links
    ensures Linked(links[..], t)
    ensures Painted(sids, depth, links[..], red)
    ensures OnlySiblings(old(links[..]), links[..], sids)
  {
    hide Linked;
    for n := 0 to |sids|
      invariant Linked(links[..], t)
      invariant forall i :: 0 <= i < n ==> sids[i] < links.Length && links[sids[i]].color == ColorAt(red, depth[sids[i]])
      invariant OnlySiblings(old(links[..]), links[..], sids)
    {
      ghost var before := links[..];
      var sid := sids[n];
      assert sid in sids;
      links[sid] := links[sid].(color := if !perfect && depth[sid] == deepest then RED else BLACK);
      LinkedFrame(before, links[..], t);
    }
  }
}
