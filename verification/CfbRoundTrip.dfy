/** Reading back what was written (_cfb.py `read` after `write`). */
module CfbRoundTrip {
  import opened Base
  import opened CfbFormat
  import opened CfbEntry
  import opened CfbTree
  import opened CfbImage
  import opened CfbFields
  import opened CfbVolume
  import opened CfbOpen
  import opened CfbLinks
  import CfbRead

  // ---------------------------------------------------------------- walking a sibling tree

  /** The records carry the pointers. */
  ghost predicate Pointed(records: seq<Bytes>, links: seq<Link>)
    requires AllOf(records, 128)
  {
    && |links| <= |records| && |links| <= CfbTree.NOSTREAM
    && forall s :: 0 <= s < |links| ==>
         && Get32(records[s], 0x44) == links[s].left && Get32(records[s], 0x48) == links[s].right
         && Get32(records[s], 0x4C) == links[s].child
  }

  /** No entry occurs twice in the tree. */
  ghost predicate Separate(t: Tree) {
    t.Node? ==> Apart(t.left, t.sid, t.right) && Separate(t.left) && Separate(t.right)
  }

  lemma {:induction false} BalancedSeparate(sids: seq<nat>, level: nat)
    requires Distinct(sids)
    ensures Separate(Balanced(sids, level))
    decreases |sids|
  {
    hide Sids, InOrder, Apart;
    if sids != [] {
      var tl, tr := MiddleOf(sids, 0, |sids| - 1, level);
      var mid := |sids| / 2;
      assert sids[0..|sids| - 1 + 1] == sids && sids[0..mid] == sids[..mid];
      assert sids[mid + 1..|sids| - 1 + 1] == sids[mid + 1..];
      Halves(sids, mid);
      BalancedSeparate(sids[..mid], level + 1);
      BalancedSeparate(sids[mid + 1..], level + 1);
    }
  }

  /** The stack loop visits a whole linked tree before it goes on with what lies below on the stack. */
  lemma {:induction false} WalkTree(records: seq<Bytes>, links: seq<Link>, t: Tree, stack: seq<nat>, visited: set<nat>)
    requires AllOf(records, 128) && Pointed(records, links) && Linked(links, t) && Separate(t) && Sids(t) !! visited
    ensures CfbRead.Siblings(records, stack + [RootSid(t)], visited)
         == CfbRead.Before(Visit(t), CfbRead.Siblings(records, stack, visited + Sids(t)))
    decreases t
  {
    hide *;
    if t.Nil? {
      WalkNil(records, stack, visited);
    } else {
      TreeParts(links, t);
      var visited' := visited + {t.sid};
      WalkStep(records, links, t, stack, visited);
      WalkTree(records, links, t.right, stack + [RootSid(t.left)], visited');
      WalkTree(records, links, t.left, stack, visited' + Sids(t.right));
      var rest := CfbRead.Siblings(records, stack, visited' + Sids(t.right) + Sids(t.left));
      assert visited' + Sids(t.right) + Sids(t.left) == visited + Sids(t);
      CfbRead.BeforeJoin(Visit(t.right), Visit(t.left), rest);
      CfbRead.BeforeJoin([t.sid], Visit(t.right) + Visit(t.left), rest);
      Assoc([t.sid], Visit(t.right), Visit(t.left));
    }
  }

  lemma {:induction false} WalkNil(records: seq<Bytes>, stack: seq<nat>, visited: set<nat>)
    requires AllOf(records, 128)
    ensures CfbRead.Siblings(records, stack + [RootSid(Nil)], visited)
         == CfbRead.Before(Visit(Nil), CfbRead.Siblings(records, stack, visited + Sids(Nil)))
  {
    var all := stack + [RootSid(Nil)];
    assert all[|all| - 1] == CfbTree.NOSTREAM && all[..|all| - 1] == stack;
    assert visited + Sids(Nil) == visited;
    CfbRead.BeforeJoin([], [], CfbRead.Siblings(records, stack, visited));
  }

  lemma {:induction false} TreeParts(links: seq<Link>, t: Tree)
    requires t.Node? && Linked(links, t) && Separate(t)
    ensures Linked(links, t.left) && Linked(links, t.right) && Separate(t.left) && Separate(t.right)
    ensures Sids(t) == Sids(t.left) + {t.sid} + Sids(t.right)
    ensures t.sid !in Sids(t.left) && t.sid !in Sids(t.right) && Sids(t.left) !! Sids(t.right)
    ensures Visit(t) == [t.sid] + Visit(t.right) + Visit(t.left)
  {
  }

  lemma {:induction false} WalkStep(records: seq<Bytes>, links: seq<Link>, t: Tree, stack: seq<nat>, visited: set<nat>)
    requires AllOf(records, 128) && Pointed(records, links) && t.Node? && Linked(links, t) && t.sid !in visited
    ensures CfbRead.Siblings(records, stack + [RootSid(t)], visited)
         == CfbRead.Before([t.sid], CfbRead.Siblings(records, stack + [RootSid(t.left)] + [RootSid(t.right)], visited + {t.sid}))
  {
    var all := stack + [t.sid];
    assert all[|all| - 1] == t.sid && all[..|all| - 1] == stack;
    assert stack + [RootSid(t.left), RootSid(t.right)] == stack + [RootSid(t.left)] + [RootSid(t.right)];
  }

  /** The children of a storage are found in returned order. */
  lemma {:induction false} SiblingsFound(records: seq<Bytes>, links: seq<Link>, upper: string -> string, children: seq<Entry>, sids: seq<nat>)
    requires AllOf(records, 128) && Pointed(records, links) && Linked(links, Balanced(sids, 0)) && Distinct(sids)
    ensures CfbRead.Siblings(records, [RootSid(Balanced(sids, 0))], {}) == Ok(ReadOrder(sids))
  {
    hide *;
    var t := Balanced(sids, 0);
    BalancedSeparate(sids, 0);
    WalkTree(records, links, t, [], {});
    VisitBalanced(sids, 0);
    assert [] + [RootSid(t)] == [RootSid(t)];
    assert {} + Sids(t) == Sids(t);
    NoSiblings(records, Sids(t));
    CfbRead.BeforeJoin(ReadOrder(sids), [], Ok([]));
  }

  lemma {:induction false} NoSiblings(records: seq<Bytes>, visited: set<nat>)
    requires AllOf(records, 128)
    ensures CfbRead.Siblings(records, [], visited) == Ok([])
    ensures CfbRead.Siblings(records, [CfbTree.NOSTREAM], visited) == Ok([])
  {
    assert [CfbTree.NOSTREAM][..0] == [];
  }

  // ---------------------------------------------------------------- one entry

  /** Everything of the entry but its data and children. */
  ghost function Bare(e: Entry): Entry {
    Entry(e.name, e.kind, [], Fit(e.clsid, 16), e.state,
          if e.kind == STREAM then Zeros(8) else Fit(e.created, 8),
          if e.kind == STREAM then Zeros(8) else Fit(e.modified, 8), [])
  }

  /** The volume holds entry `e` under number `sid`, and its children under `tops`. */
  ghost predicate Holds(v: CfbRead.Volume, upper: string -> string, e: Entry, tops: seq<nat>, sid: nat)
    requires v.Valid()
  {
    && sid < |v.records| && |tops| == |e.children|
    && CfbRead.Bare(v.records[sid], []) == Bare(e)
    && (e.kind == STREAM && |e.data| <= MAX32 ==> CfbRead.StreamData(v, v.records[sid]) == Ok(e.data))
    && (IsStorage(e) ==>
          && Positions(Returned(upper, e.children), |tops|)
          && CfbRead.Siblings(v.records, [Get32(v.records[sid], 0x4C)], {}) == Ok(Pick(tops, Returned(upper, e.children))))
  }

  /** It holds a whole forest whose first entry has number `first`. */
  ghost predicate HoldsAll(v: CfbRead.Volume, upper: string -> string, forest: seq<Entry>, first: nat)
    requires v.Valid()
    decreases forest
  {
    forest != [] ==>
      && Holds(v, upper, forest[0], TopSids(forest[0].children, first + 1), first)
      && HoldsAll(v, upper, forest[0].children, first + 1)
      && HoldsAll(v, upper, forest[1..], first + 1 + |Nodes(forest[0].children)|)
  }

  lemma {:induction false} HoldsAt(v: CfbRead.Volume, upper: string -> string, forest: seq<Entry>, first: nat, i: nat)
    requires v.Valid() && HoldsAll(v, upper, forest, first) && i < |forest|
    ensures var sid := TopSids(forest, first)[i];
            && Holds(v, upper, forest[i], TopSids(forest[i].children, sid + 1), sid)
            && HoldsAll(v, upper, forest[i].children, sid + 1)
  {
    hide Holds;
    if i > 0 {
      HoldsAt(v, upper, forest[1..], first + 1 + |Nodes(forest[0].children)|, i - 1);
    }
  }

  ghost predicate Found(v: CfbRead.Volume, upper: string -> string, e: Entry, sid: nat, depth: nat)
    requires v.Valid()
  {
    sid < |v.records| && depth <= 65 && CfbRead.EntryOf(v, sid, depth) == Ok(Normal(upper, e))
  }

  ghost function NormalAll(upper: string -> string, forest: seq<Entry>, order: seq<nat>): (all: seq<Entry>)
    requires Positions(order, |forest|)
    ensures |all| == |order|
  {
    seq(|order|, i requires 0 <= i < |order| => Normal(upper, forest[order[i]]))
  }

  lemma {:induction false} NormalStep(upper: string -> string, forest: seq<Entry>, order: seq<nat>)
    requires Positions(order, |forest|) && order != []
    ensures Positions(order[1..], |forest|)
    ensures NormalAll(upper, forest, order) == [Normal(upper, forest[order[0]])] + NormalAll(upper, forest, order[1..])
  {
    hide Normal;
    PositionsPart(order, |forest|, 1, |order|);
    assert order[1..|order|] == order[1..];
  }

  /** Entries found one by one are found together. */
  lemma {:induction false} EntriesFound(v: CfbRead.Volume, upper: string -> string, forest: seq<Entry>,
                                        sids: seq<nat>, order: seq<nat>, depth: nat)
    requires v.Valid() && |sids| == |order| && Positions(order, |forest|) && depth <= 65
    requires forall i :: 0 <= i < |order| ==> Found(v, upper, forest[order[i]], sids[i], depth)
    ensures forall i :: 0 <= i < |sids| ==> sids[i] < |v.records|
    ensures CfbRead.EntriesOf(v, sids, depth) == Ok(NormalAll(upper, forest, order))
    decreases |sids|
  {
    hide Normal, CfbRead.EntryOf, Positions, NormalAll;
    if sids != [] {
      NormalStep(upper, forest, order);
      assert forall i :: 0 <= i < |order[1..]| ==> order[1..][i] == order[i + 1] && sids[1..][i] == sids[i + 1];
      EntriesFound(v, upper, forest, sids[1..], order[1..], depth);
      assert sids == [sids[0]] + sids[1..];
    } else {
      assert NormalAll(upper, forest, order) == [];
    }
  }

  /** A held entry that version 3 can represent is read back. */
  lemma {:induction false} EntryFound(v: CfbRead.Volume, upper: string -> string, e: Entry, sid: nat, depth: nat)
    requires v.Valid() && Holds(v, upper, e, TopSids(e.children, sid + 1), sid) && HoldsAll(v, upper, e.children, sid + 1)
    requires Readable(e, depth) && depth <= 65
    ensures Found(v, upper, e, sid, depth)
    decreases e
  {
    hide *;
    var tops, order := TopSids(e.children, sid + 1), Returned(upper, e.children);
    ReadableParts(e, depth);
    if IsStorage(e) {
      OrderParts(upper, e, tops);
      var sids := Pick(tops, order);
      forall i | 0 <= i < |order|
        ensures Found(v, upper, e.children[order[i]], sids[i], depth + 1)
      {
        HoldsAt(v, upper, e.children, sid + 1, order[i]);
        EntryFound(v, upper, e.children[order[i]], sids[i], depth + 1);
      }
      EntriesFound(v, upper, e.children, sids, order, depth + 1);
    }
    EntryStep(v, upper, e, sid, depth);
  }

  lemma {:induction false} ReadableParts(e: Entry, depth: nat)
    requires Readable(e, depth)
    ensures e.kind == STREAM ==> |e.data| <= MAX32
    ensures IsStorage(e) ==> depth <= 64 && forall i :: 0 <= i < |e.children| ==> Readable(e.children[i], depth + 1)
  {
  }

  lemma {:induction false} OrderParts(upper: string -> string, e: Entry, tops: seq<nat>)
    requires IsStorage(e) && |tops| == |e.children|
    ensures var order := Returned(upper, e.children);
            && Positions(order, |tops|) && Positions(order, |e.children|)
            && (forall i :: 0 <= i < |order| ==> order[i] < |tops| && Pick(tops, order)[i] == tops[order[i]])
            && NormalAll(upper, e.children, order) == Normal(upper, e).children
  {
    hide Returned;
  }

  lemma {:induction false} EntryStep(v: CfbRead.Volume, upper: string -> string, e: Entry, sid: nat, depth: nat)
    requires v.Valid() && Holds(v, upper, e, TopSids(e.children, sid + 1), sid)
    requires e.kind == STREAM ==> |e.data| <= MAX32
    requires IsStorage(e) ==>
               var sids := Pick(TopSids(e.children, sid + 1), Returned(upper, e.children));
               && depth <= 64 && (forall i :: 0 <= i < |sids| ==> sids[i] < |v.records|)
               && CfbRead.EntriesOf(v, sids, depth + 1) == Ok(Normal(upper, e).children)
    requires depth <= 65
    ensures Found(v, upper, e, sid, depth)
  {
    hide CfbRead.Siblings, CfbRead.EntriesOf, Returned, TopSids, Pick, CfbRead.StreamData, Fit, CfbRead.NameOf;
    assert CfbRead.Bare(v.records[sid], []).kind == v.records[sid][0x42];
  }

  // ---------------------------------------------------------------- the whole file

  /** What the record of entry `sid` says, field by field. */
  lemma {:induction false} BareFound(nodes: seq<Entry>, links: seq<Link>, sid: nat)
    requires InRange(nodes, links) && sid < |nodes|
    ensures var records := Records(nodes, PlanOf(nodes), links);
            && sid < |records|
            && CfbRead.Bare(records[sid], []) == Bare(nodes[sid])
            && Get32(records[sid], 0x44) == links[sid].left && Get32(records[sid], 0x48) == links[sid].right
            && Get32(records[sid], 0x4C) == links[sid].child
  {
    hide PlanOf, Records, Record, RecordFits, StartOf, SizeOf, Get32, CfbRead.NameOf, Fit, Encode;
    var p, e := PlanOf(nodes), nodes[sid];
    RecordFound(nodes, links, sid);
    RecordName(e, links[sid], StartOf(nodes, p, sid), SizeOf(nodes, sid));
    RecordPointers(e, links[sid], StartOf(nodes, p, sid), SizeOf(nodes, sid));
    RecordPlain(e, links[sid], StartOf(nodes, p, sid), SizeOf(nodes, sid));
    NoTime();
  }

  lemma {:induction false} NoTime()
    ensures Fit([], 8) == Zeros(8)
  {
  }

  lemma {:induction false} AllPointed(nodes: seq<Entry>, links: seq<Link>)
    requires InRange(nodes, links)
    ensures Pointed(Records(nodes, PlanOf(nodes), links), links)
  {
    hide PlanOf, Records, CfbRead.Bare, Bare, Get32, RecordFits;
    var records := Records(nodes, PlanOf(nodes), links);
    RecordFound(nodes, links, |nodes| - 1);
    forall s: nat | s < |links|
      ensures s < |records|
      ensures Get32(records[s], 0x44) == links[s].left && Get32(records[s], 0x48) == links[s].right
      ensures Get32(records[s], 0x4C) == links[s].child
    {
      BareFound(nodes, links, s);
    }
  }

  lemma {:induction false} ReadOrderOf(upper: string -> string, children: seq<Entry>, tops: seq<nat>)
    requires |tops| == |children|
    ensures Positions(Returned(upper, children), |tops|)
    ensures ReadOrder(Pick(tops, Sorted(upper, children))) == Pick(tops, Returned(upper, children))
    ensures children == [] ==> Pick(tops, Returned(upper, children)) == []
  {
    hide Sorted;
    ReadOrderPick(tops, Sorted(upper, children));
    ReturnedIsPermutation(upper, children);
  }

  lemma {:induction false} ChildrenFound(upper: string -> string, e: Entry, tops: seq<nat>, sid: nat, records: seq<Bytes>, links: seq<Link>)
    requires AllOf(records, 128) && Pointed(records, links) && IsStorage(e) && tops == TopSids(e.children, sid + 1)
    requires LinkOk(upper, e, tops, links, sid)
    ensures sid < |records| && Positions(Returned(upper, e.children), |tops|)
    ensures CfbRead.Siblings(records, [Get32(records[sid], 0x4C)], {}) == Ok(Pick(tops, Returned(upper, e.children)))
  {
    hide CfbRead.Siblings, Returned, TopSids, Balanced, Pick, Sorted, ReadOrder;
    ReadOrderOf(upper, e.children, tops);
    if e.children == [] {
      NoSiblings(records, {});
    } else {
      OrderedSids(upper, e.children, sid + 1);
      SiblingsFound(records, links, upper, e.children, Pick(tops, Sorted(upper, e.children)));
    }
  }

  lemma {:induction false} HoldsFound(raw: Bytes, nodes: seq<Entry>, links: seq<Link>, upper: string -> string, kids: seq<seq<nat>>, sid: nat)
    requires InRange(nodes, links) && Placed(raw, nodes, links, PlanOf(nodes)) && LinkedUp(upper, nodes, kids, links)
    requires sid < |nodes| && kids[sid] == TopSids(nodes[sid].children, sid + 1)
    ensures Opened(raw, nodes, links).Valid()
    ensures Holds(Opened(raw, nodes, links), upper, nodes[sid], kids[sid], sid)
  {
    hide CfbRead.Siblings, CfbRead.StreamData, CfbRead.Bare, Returned, TopSids, Pick, PlanOf, Records, Placed, LinkOk,
         DirectoryFits, DifatFits, Packable, HeaderWords, HeadWords, MinifatWords, FatWords, Stored;
    var e := nodes[sid];
    BareFound(nodes, links, sid);
    if e.kind == STREAM && |e.data| <= MAX32 {
      StreamFound(raw, nodes, links, sid);
    }
    if IsStorage(e) {
      AllPointed(nodes, links);
      ChildrenFound(upper, e, kids[sid], sid, Records(nodes, PlanOf(nodes), links), links);
    }
    TopsLength(upper, nodes, kids, links, sid);
  }

  lemma {:induction false} TopsLength(upper: string -> string, nodes: seq<Entry>, kids: seq<seq<nat>>, links: seq<Link>, sid: nat)
    requires LinkedUp(upper, nodes, kids, links) && sid < |nodes|
    ensures |kids[sid]| == |nodes[sid].children|
  {
  }

  ghost predicate HoldsNumbered(v: CfbRead.Volume, upper: string -> string, nodes: seq<Entry>, kids: seq<seq<nat>>)
    requires v.Valid()
  {
    && |kids| == |nodes|
    && forall sid :: 0 <= sid < |nodes| && kids[sid] == TopSids(nodes[sid].children, sid + 1) ==>
         Holds(v, upper, nodes[sid], kids[sid], sid)
  }

  /** What holds for every number holds for the forest that was numbered. */
  lemma {:induction false} HoldsForest(v: CfbRead.Volume, upper: string -> string, nodes: seq<Entry>, kids: seq<seq<nat>>,
                                       forest: seq<Entry>, first: nat)
    requires v.Valid() && HoldsNumbered(v, upper, nodes, kids)
    requires HasSlice(nodes, first, Nodes(forest)) && HasSlice(kids, first, Kids(forest, first))
    ensures HoldsAll(v, upper, forest, first)
    decreases forest
  {
    hide *;
    if forest != [] {
      ForestParts(v, upper, nodes, kids, forest, first);
      HoldsForest(v, upper, nodes, kids, forest[0].children, first + 1);
      HoldsForest(v, upper, nodes, kids, forest[1..], first + 1 + |Nodes(forest[0].children)|);
    }
    HoldsAllIs(v, upper, forest, first);
  }

  lemma {:induction false} HoldsAllIs(v: CfbRead.Volume, upper: string -> string, forest: seq<Entry>, first: nat)
    requires v.Valid()
    ensures HoldsAll(v, upper, forest, first) <==>
              (forest != [] ==>
                && Holds(v, upper, forest[0], TopSids(forest[0].children, first + 1), first)
                && HoldsAll(v, upper, forest[0].children, first + 1)
                && HoldsAll(v, upper, forest[1..], first + 1 + |Nodes(forest[0].children)|))
  {
    hide Holds, TopSids, Nodes;
  }

  lemma {:induction false} ForestParts(v: CfbRead.Volume, upper: string -> string, nodes: seq<Entry>, kids: seq<seq<nat>>,
                    forest: seq<Entry>, first: nat)
    requires v.Valid() && HoldsNumbered(v, upper, nodes, kids) && forest != []
    requires HasSlice(nodes, first, Nodes(forest)) && HasSlice(kids, first, Kids(forest, first))
    ensures Holds(v, upper, forest[0], TopSids(forest[0].children, first + 1), first)
    ensures HasSlice(nodes, first + 1, Nodes(forest[0].children))
    ensures HasSlice(kids, first + 1, Kids(forest[0].children, first + 1))
    ensures var next := first + 1 + |Nodes(forest[0].children)|;
            HasSlice(nodes, next, Nodes(forest[1..])) && HasSlice(kids, next, Kids(forest[1..], next))
  {
    hide *;
    var e := forest[0];
    var children, rest := Nodes(e.children), Nodes(forest[1..]);
    ForestSplit(forest, first);
    InnerField(nodes, first, [e] + children, rest);
    InnerField(nodes, first, [e], children);
    var tops: seq<seq<nat>> := [TopSids(e.children, first + 1)];
    InnerField(kids, first, tops + Kids(e.children, first + 1), Kids(forest[1..], first + 1 + |children|));
    InnerField(kids, first, tops, Kids(e.children, first + 1));
    SliceHead(nodes, first, e);
    SliceHead(kids, first, TopSids(e.children, first + 1));
    NumberedAt(v, upper, nodes, kids, first);
  }

  lemma {:induction false} ForestSplit(forest: seq<Entry>, first: nat)
    requires forest != []
    ensures var e := forest[0];
            && Nodes(forest) == [e] + Nodes(e.children) + Nodes(forest[1..])
            && Kids(forest, first) == [TopSids(e.children, first + 1)] + Kids(e.children, first + 1)
                                      + Kids(forest[1..], first + 1 + |Nodes(e.children)|)
            && |Kids(e.children, first + 1)| == |Nodes(e.children)|
  {
  }

  lemma {:induction false} NumberedAt(v: CfbRead.Volume, upper: string -> string, nodes: seq<Entry>, kids: seq<seq<nat>>, sid: nat)
    requires v.Valid() && HoldsNumbered(v, upper, nodes, kids) && sid < |nodes| && sid < |kids|
    requires kids[sid] == TopSids(nodes[sid].children, sid + 1)
    ensures Holds(v, upper, nodes[sid], kids[sid], sid)
  {
    hide Holds, TopSids;
  }

  lemma {:induction false} OpenedValid(raw: Bytes, nodes: seq<Entry>, links: seq<Link>)
    requires InRange(nodes, links)
    ensures DirectoryFits(nodes, PlanOf(nodes), links) && Opened(raw, nodes, links).Valid()
  {
    hide PlanOf, Records, MinifatWords, FatWords, Stored, HeaderWords, HeadWords, DifatFits, DirectoryFits, Packable;
  }

  lemma {:induction false} NumberedHeld(raw: Bytes, nodes: seq<Entry>, links: seq<Link>, upper: string -> string, kids: seq<seq<nat>>)
    requires InRange(nodes, links) && Placed(raw, nodes, links, PlanOf(nodes)) && LinkedUp(upper, nodes, kids, links)
    ensures DirectoryFits(nodes, PlanOf(nodes), links) && Opened(raw, nodes, links).Valid()
    ensures HoldsNumbered(Opened(raw, nodes, links), upper, nodes, kids)
  {
    hide TopSids, Holds, Placed, InRange, PlanOf, Records, Opened, LinkOk, DirectoryFits, Fits;
    OpenedValid(raw, nodes, links);
    forall sid | 0 <= sid < |nodes| && kids[sid] == TopSids(nodes[sid].children, sid + 1)
      ensures Holds(Opened(raw, nodes, links), upper, nodes[sid], kids[sid], sid)
    {
      HoldsFound(raw, nodes, links, upper, kids, sid);
    }
  }

  lemma {:induction false} AllHeld(raw: Bytes, root: Entry, links: seq<Link>, upper: string -> string)
    requires var nodes := Nodes([root]);
             && InRange(nodes, links) && Placed(raw, nodes, links, PlanOf(nodes))
             && LinkedUp(upper, nodes, Kids([root], 0), links)
    ensures var nodes := Nodes([root]);
            && DirectoryFits(nodes, PlanOf(nodes), links) && Opened(raw, nodes, links).Valid()
            && HoldsAll(Opened(raw, nodes, links), upper, [root], 0)
  {
    hide *;
    var nodes, kids := Nodes([root]), Kids([root], 0);
    NumberedHeld(raw, nodes, links, upper, kids);
    SliceEnd([], nodes);
    SliceEnd([], kids);
    assert [] + nodes == nodes && [] + kids == kids;
    HoldsForest(Opened(raw, nodes, links), upper, nodes, kids, [root], 0);
  }

  lemma {:induction false} RootNode(root: Entry)
    ensures Nodes([root]) != [] && Nodes([root])[0] == root
    ensures TopSids([root], 0) == [0]
  {
  }

  lemma {:induction false} ReadStep(raw: Bytes, v: CfbRead.Volume)
    requires CfbRead.Open(raw) == Ok(v)
    ensures v.Valid() && v.records != []
    ensures v.records[0][0x42] == ROOT ==> CfbRead.Read(raw) == CfbRead.EntryOf(v, 0, 0)
  {
    hide CfbRead.Open, CfbRead.EntryOf;
  }

  lemma {:induction false} KindFound(v: CfbRead.Volume, upper: string -> string, root: Entry)
    requires v.Valid() && v.records != [] && Holds(v, upper, root, TopSids(root.children, 1), 0)
    ensures v.records[0][0x42] == root.kind
  {
    hide TopSids, Returned, CfbRead.Siblings, CfbRead.StreamData, Pick, CfbRead.NameOf;
    assert CfbRead.Bare(v.records[0], []).kind == v.records[0][0x42];
  }

  /** Whatever version 3 reads is a root whose streams and depth version 3 can represent. */
  lemma {:induction false} ReadIsReadable(raw: Bytes)
    requires |raw| >= 512 && Get16(raw, 0x1A) == 3 && CfbRead.Read(raw).Ok?
    ensures CfbRead.Read(raw).value.kind == ROOT && Readable(CfbRead.Read(raw).value, 0)
  {
    hide CfbRead.Header, CfbRead.Fat, CfbRead.Regular, CfbRead.MiniStream, CfbRead.MiniFat, CfbRead.StreamData,
         CfbRead.Siblings, CfbRead.EntriesOf, CfbRead.NameOf, Readable;
    CfbRead.EntryIsReadable(CfbRead.Open(raw).value, 0, 0);
  }

  lemma {:induction false} ReadWritten(raw: Bytes, root: Entry, links: seq<Link>, upper: string -> string)
    requires var nodes := Nodes([root]);
             && InRange(nodes, links) && Placed(raw, nodes, links, PlanOf(nodes))
             && LinkedUp(upper, nodes, Kids([root], 0), links)
    requires root.kind == ROOT && Readable(root, 0)
    ensures CfbRead.Read(raw) == Ok(Normal(upper, root))
  {
    hide *;
    var nodes := Nodes([root]);
    OpenedValid(raw, nodes, links);
    var v := Opened(raw, nodes, links);
    RootNode(root);
    OpenFinds(raw, nodes, links);
    AllHeld(raw, root, links, upper);
    HoldsAt(v, upper, [root], 0, 0);
    ReadStep(raw, v);
    KindFound(v, upper, root);
    EntryFound(v, upper, root, 0, 0);
    FoundIs(v, upper, root);
  }

  lemma {:induction false} FoundIs(v: CfbRead.Volume, upper: string -> string, root: Entry)
    requires v.Valid() && Found(v, upper, root, 0, 0)
    ensures v.records != [] && CfbRead.EntryOf(v, 0, 0) == Ok(Normal(upper, root))
  {
  }

  /** Reading a written file gives the root back, up to sibling order and stream times, exactly when version 3 can
      represent it: a root entry, storages at most 64 deep, every stream below 4 GiB. */
  lemma {:induction false} RoundTrip(root: Entry, links: seq<Link>, upper: string -> string)
    requires var nodes := Nodes([root]);
             InRange(nodes, links) && LinkedUp(upper, nodes, Kids([root], 0), links)
    ensures Fits(Nodes([root]), PlanOf(Nodes([root])), links)
    ensures CfbRead.Read(Image(Nodes([root]), links)) == Ok(Normal(upper, root)) <==>
            root.kind == ROOT && Readable(root, 0)
  {
    hide *;
    var nodes := Nodes([root]);
    InRangeFits(nodes, links);
    var raw := Image(nodes, links);
    ImageIsPlaced(nodes, links);
    HeaderFound(raw, nodes, links);
    if root.kind == ROOT && Readable(root, 0) {
      ReadWritten(raw, root, links, upper);
    }
    if CfbRead.Read(raw) == Ok(Normal(upper, root)) {
      ReadIsReadable(raw);
      ReadableNormal(upper, root, 0);
      NormalKind(upper, root);
    }
  }

  lemma {:induction false} InRangeFits(nodes: seq<Entry>, links: seq<Link>)
    requires InRange(nodes, links)
    ensures Fits(nodes, PlanOf(nodes), links)
  {
  }

  lemma {:induction false} NormalKind(upper: string -> string, root: Entry)
    ensures Normal(upper, root).kind == root.kind
  {
  }
}
