/** Directory entries of a compound file (_cfb.py `Entry`): numbering, sibling order, and what a file can give back. */
module CfbEntry {
  import opened Base
  import opened CfbFormat
  import opened CfbTree

  const STORAGE: byte := 1
  const STREAM: byte := 2
  const ROOT: byte := 5

  datatype Entry = Entry(
    name: string,
    kind: byte,
    data: seq<byte>,
    clsid: seq<byte>,
    state: nat,
    created: seq<byte>,
    modified: seq<byte>,
    children: seq<Entry>)

  predicate IsStorage(e: Entry) {
    e.kind == STORAGE || e.kind == ROOT
  }

  // ---------------------------------------------------------------- numbering

  /** All entries of a forest in the order they are numbered: an entry, what lies below it, its next sibling. */
  function Nodes(forest: seq<Entry>): seq<Entry>
    decreases forest
  {
    if forest == [] then []
    else [forest[0]] + Nodes(forest[0].children) + Nodes(forest[1..])
  }

  /** The numbers of the top entries of a forest whose first entry has number `first`. */
  function TopSids(forest: seq<Entry>, first: nat): (sids: seq<nat>)
    ensures |sids| == |forest|
  {
    if forest == [] then [] else [first] + TopSids(forest[1..], first + 1 + |Nodes(forest[0].children)|)
  }

  /** For every entry of the forest, in numbering order, the numbers of its children. */
  function Kids(forest: seq<Entry>, first: nat): (kids: seq<seq<nat>>)
    ensures |kids| == |Nodes(forest)|
    decreases forest
  {
    if forest == [] then []
    else
      [TopSids(forest[0].children, first + 1)]
      + Kids(forest[0].children, first + 1)
      + Kids(forest[1..], first + 1 + |Nodes(forest[0].children)|)
  }

  // ---------------------------------------------------------------- sibling order

  /** The order of names: shorter UTF-16 form first, then upper-cased text by code point. `upper` is `str.upper`. */
  predicate KeyLeq(upper: string -> string, a: string, b: string) {
    var m, n := |Encode(a)|, |Encode(b)|;
    m < n || (m == n && TextLeq(upper(a), upper(b)))
  }

  predicate TextLeq(a: string, b: string) {
    a == "" || (b != "" && (a[0] < b[0] || (a[0] == b[0] && TextLeq(a[1..], b[1..]))))
  }

  /** Put position `k` behind every position whose name is not greater. */
  function Insert(upper: string -> string, forest: seq<Entry>, order: seq<nat>, k: nat): (out: seq<nat>)
    requires k < |forest| && forall i :: 0 <= i < |order| ==> order[i] < |forest|
    ensures forall i :: 0 <= i < |out| ==> out[i] < |forest|
    ensures |out| == |order| + 1 && forall x :: x in out <==> x in order || x == k
  {
    if order == [] then [k]
    else
      var n := |order| - 1;
      assert order == order[..n] + [order[n]];
      if KeyLeq(upper, forest[order[n]].name, forest[k].name) then order + [k]
      else Insert(upper, forest, order[..n], k) + [order[n]]
  }

  /** `sorted(children, key=_key)` as positions; equal keys keep their order. */
  function SortedUpto(upper: string -> string, forest: seq<Entry>, n: nat): (order: seq<nat>)
    requires n <= |forest|
    ensures forall i :: 0 <= i < |order| ==> order[i] < |forest|
  {
    if n == 0 then [] else Insert(upper, forest, SortedUpto(upper, forest, n - 1), n - 1)
  }

  function Sorted(upper: string -> string, forest: seq<Entry>): (order: seq<nat>)
    ensures forall i :: 0 <= i < |order| ==> order[i] < |forest|
  {
    SortedUpto(upper, forest, |forest|)
  }

  /** Every position exactly once. */
  ghost predicate Permutation(order: seq<nat>, n: nat) {
    |order| == n && Distinct(order) && forall k: nat :: k in order <==> k < n
  }

  lemma {:induction false} InsertDistinct(upper: string -> string, forest: seq<Entry>, order: seq<nat>, k: nat)
    requires k < |forest| && forall i :: 0 <= i < |order| ==> order[i] < |forest|
    requires Distinct(order) && k !in order
    ensures Distinct(Insert(upper, forest, order, k))
  {
    hide KeyLeq;
    if order != [] && !KeyLeq(upper, forest[order[|order| - 1]].name, forest[k].name) {
      var n := |order| - 1;
      InsertDistinct(upper, forest, order[..n], k);
      assert order[n] !in order[..n];
    }
  }

  lemma {:induction false} SortedIsPermutation(upper: string -> string, forest: seq<Entry>, n: nat)
    requires n <= |forest|
    ensures Permutation(SortedUpto(upper, forest, n), n)
  {
    hide Insert;
    if n > 0 {
      var k: nat := n - 1;
      SortedIsPermutation(upper, forest, k);
      InsertDistinct(upper, forest, SortedUpto(upper, forest, k), k);
    }
  }

  ghost predicate InKeyOrder(upper: string -> string, forest: seq<Entry>, order: seq<nat>)
    requires forall i :: 0 <= i < |order| ==> order[i] < |forest|
  {
    forall i, j :: 0 <= i && j == i + 1 && j < |order| ==> KeyLeq(upper, forest[order[i]].name, forest[order[j]].name)
  }

  lemma {:induction false} TextTotal(a: string, b: string)
    ensures TextLeq(a, b) || TextLeq(b, a)
  {
    if a != "" && b != "" && a[0] == b[0] { TextTotal(a[1..], b[1..]); }
  }

  lemma {:induction false} InsertInOrder(upper: string -> string, forest: seq<Entry>, order: seq<nat>, k: nat)
    requires k < |forest| && forall i :: 0 <= i < |order| ==> order[i] < |forest|
    requires InKeyOrder(upper, forest, order)
    ensures var out := Insert(upper, forest, order, k);
            InKeyOrder(upper, forest, out) && out[|out| - 1] == if order != []
              && !KeyLeq(upper, forest[order[|order| - 1]].name, forest[k].name) then order[|order| - 1] else k
  {
    hide KeyLeq;
    if order != [] && !KeyLeq(upper, forest[order[|order| - 1]].name, forest[k].name) {
      var n := |order| - 1;
      KeyTotal(upper, forest[order[n]].name, forest[k].name);
      InsertInOrder(upper, forest, order[..n], k);
    }
  }

  lemma {:induction false} KeyTotal(upper: string -> string, a: string, b: string)
    ensures KeyLeq(upper, a, b) || KeyLeq(upper, b, a)
  {
    TextTotal(upper(a), upper(b));
  }

  /** The siblings are linked in the order of their names. */
  lemma {:induction false} SortedIsInOrder(upper: string -> string, forest: seq<Entry>, n: nat)
    requires n <= |forest|
    ensures InKeyOrder(upper, forest, SortedUpto(upper, forest, n))
  {
    if n > 0 {
      hide KeyLeq, Insert;
      SortedIsInOrder(upper, forest, n - 1);
      InsertInOrder(upper, forest, SortedUpto(upper, forest, n - 1), n - 1);
    }
  }

  // ---------------------------------------------------------------- the order in which siblings are read

  /** The stack of `siblings` yields a middle entry, then everything on its right, then everything on its left. */
  function ReadOrder(s: seq<nat>): (out: seq<nat>)
    ensures |out| == |s|
    decreases |s|
  {
    if s == [] then [] else [s[|s| / 2]] + ReadOrder(s[|s| / 2 + 1..]) + ReadOrder(s[..|s| / 2])
  }

  /** Reading order only permutes. */
  lemma {:induction false} ReadOrderMembers(s: seq<nat>)
    ensures forall x :: x in ReadOrder(s) <==> x in s
    ensures Distinct(s) ==> Distinct(ReadOrder(s))
    decreases |s|
  {
    if s != [] {
      var mid := |s| / 2;
      var left, right := s[..mid], s[mid + 1..];
      ReadOrderMembers(right);
      ReadOrderMembers(left);
      Halves(s, mid);
      ReadOrderStep(s, left, right, ReadOrder(left), ReadOrder(right));
    }
  }

  lemma {:induction false} ReadOrderStep(s: seq<nat>, left: seq<nat>, right: seq<nat>, outL: seq<nat>, outR: seq<nat>)
    requires s != [] && left == s[..|s| / 2] && right == s[|s| / 2 + 1..]
    requires forall x :: x in s <==> x in left || x == s[|s| / 2] || x in right
    requires (forall x :: x in outL <==> x in left) && (forall x :: x in outR <==> x in right)
    requires Distinct(s) ==> s[|s| / 2] !in left && s[|s| / 2] !in right && forall x :: x in left ==> x !in right
    requires Distinct(s) ==> Distinct(outL) && Distinct(outR)
    ensures forall x :: x in [s[|s| / 2]] + outR + outL <==> x in s
    ensures Distinct(s) ==> Distinct([s[|s| / 2]] + outR + outL)
  {
    if Distinct(s) {
      hide Distinct;
      DistinctOne(s[|s| / 2]);
      DistinctJoin([s[|s| / 2]], outR);
      DistinctJoin([s[|s| / 2]] + outR, outL);
    }
  }

  lemma {:induction false} DistinctOne(x: nat)
    ensures Distinct([x])
  {
  }

  lemma {:induction false} Halves(s: seq<nat>, mid: nat)
    requires mid < |s|
    ensures forall x :: x in s <==> x in s[..mid] || x == s[mid] || x in s[mid + 1..]
    ensures Distinct(s) ==> Distinct(s[..mid]) && Distinct(s[mid + 1..])
    ensures Distinct(s) ==> s[mid] !in s[..mid] && s[mid] !in s[mid + 1..] && forall x :: x in s[..mid] ==> x !in s[mid + 1..]
  {
    assert s == s[..mid] + [s[mid]] + s[mid + 1..];
    var right := s[mid + 1..];
    assert forall i :: 0 <= i < |right| ==> right[i] == s[mid + 1 + i];
  }

  lemma {:induction false} DistinctJoin(a: seq<nat>, b: seq<nat>)
    requires Distinct(a) && Distinct(b) && forall x :: x in a ==> x !in b
    ensures Distinct(a + b)
  {
    forall i, j | 0 <= i < j < |a + b|
      ensures (a + b)[i] != (a + b)[j]
    {
      if i < |a| <= j {
        assert a[i] in a && b[j - |a|] in b;
      }
    }
  }

  lemma {:induction false} ReadOrderInside(s: seq<nat>, n: nat)
    requires forall i :: 0 <= i < |s| ==> s[i] < n
    ensures forall i :: 0 <= i < |s| ==> ReadOrder(s)[i] < n
  {
    hide ReadOrder;
    ReadOrderMembers(s);
    forall i | 0 <= i < |s|
      ensures ReadOrder(s)[i] < n
    {
      assert ReadOrder(s)[i] in s;
      var j :| 0 <= j < |s| && s[j] == ReadOrder(s)[i];
    }
  }

  /** Children as they come back: sorted by name, then in reading order; as positions in the original list. */
  function Returned(upper: string -> string, forest: seq<Entry>): (order: seq<nat>)
    ensures forall i :: 0 <= i < |order| ==> order[i] < |forest|
  {
    var sorted := Sorted(upper, forest);
    ReadOrderInside(sorted, |forest|);
    ReadOrder(sorted)
  }

  lemma {:induction false} ReturnedIsPermutation(upper: string -> string, forest: seq<Entry>)
    ensures Permutation(Returned(upper, forest), |forest|)
  {
    SortedIsPermutation(upper, forest, |forest|);
    ReadOrderMembers(Sorted(upper, forest));
  }

  /** What a file gives back for an entry: the same name, kind, CLSID, state and stream bytes; children of storages
      in returned order; no data outside streams, no times on streams. */
  function Normal(upper: string -> string, e: Entry): Entry
    decreases e
  {
    Entry(e.name, e.kind, if e.kind == STREAM then e.data else [],
          Fit(e.clsid, 16), e.state,
          if e.kind == STREAM then Zeros(8) else Fit(e.created, 8),
          if e.kind == STREAM then Zeros(8) else Fit(e.modified, 8),
          if IsStorage(e) then
            var order := Returned(upper, e.children);
            seq(|order|, i requires 0 <= i < |order| => Normal(upper, e.children[order[i]]))
          else [])
  }

  /** What `read` can represent: storages at most 64 deep, stream sizes in 32 bits (version 3). */
  ghost predicate Readable(e: Entry, depth: nat)
    decreases e
  {
    && (e.kind == STREAM ==> |e.data| <= MAX32)
    && (IsStorage(e) ==> depth <= 64 && forall i :: 0 <= i < |e.children| ==> Readable(e.children[i], depth + 1))
  }

  lemma {:induction false} ReadableNormal(upper: string -> string, e: Entry, depth: nat)
    ensures Readable(Normal(upper, e), depth) <==> Readable(e, depth)
    decreases e
  {
    hide *;
    NormalParts(upper, e, depth);
    if IsStorage(e) {
      var order, kids := Returned(upper, e.children), Normal(upper, e).children;
      forall i | 0 <= i < |order|
        ensures Readable(kids[i], depth + 1) <==> Readable(e.children[order[i]], depth + 1)
      {
        ReadableNormal(upper, e.children[order[i]], depth + 1);
      }
      if Readable(Normal(upper, e), depth) {
        forall k: nat | k < |e.children|
          ensures Readable(e.children[k], depth + 1)
        {
          var i := PositionOf(upper, e.children, k);
          assert Readable(kids[i], depth + 1);
        }
      }
    }
  }

  lemma {:induction false} NormalParts(upper: string -> string, e: Entry, depth: nat)
    ensures var small := e.kind == STREAM ==> |e.data| <= MAX32;
            var n, order := Normal(upper, e), Returned(upper, e.children);
            var all := forall i :: 0 <= i < |e.children| ==> Readable(e.children[i], depth + 1);
            && (Readable(e, depth) <==> small && (IsStorage(e) ==> depth <= 64 && all))
            && (IsStorage(e) ==> |n.children| == |order|)
            && (Readable(n, depth) <==> small && (IsStorage(e) ==>
                  depth <= 64 && forall i :: 0 <= i < |order| ==> Readable(n.children[i], depth + 1)))
            && (IsStorage(e) ==> forall i :: 0 <= i < |order| ==>
                  order[i] < |e.children| && n.children[i] == Normal(upper, e.children[order[i]]))
  {
    hide Returned;
  }

  lemma {:induction false} PositionOf(upper: string -> string, forest: seq<Entry>, k: nat) returns (i: nat)
    requires k < |forest|
    ensures i < |Returned(upper, forest)| && Returned(upper, forest)[i] == k
  {
    hide Returned;
    var order := Returned(upper, forest);
    ReturnedIsPermutation(upper, forest);
    assert k in order;
    i :| 0 <= i < |order| && order[i] == k;
  }
}
