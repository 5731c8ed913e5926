/** Trees a version 3 compound file can hold but not give back (_cfb.py `write` followed by `read`). */
module CfbLimits {
  import opened Base
  import opened CfbFormat
  import opened CfbAlloc
  import opened CfbEntry
  import opened CfbImage
  import opened CfbFile

  function Storage(kind: byte, children: seq<Entry>): Entry {
    Entry("", kind, [], [], 0, [], [], children)
  }

  function Stream(data: seq<byte>): Entry {
    Entry("", STREAM, data, [], 0, [], [], [])
  }

  /** A storage with `n` storages below it, each in the one before. */
  function Nest(n: nat): Entry {
    Storage(STORAGE, if n == 0 then [] else [Nest(n - 1)])
  }

  // ---------------------------------------------------------------- sizes

  /** The tables take at most twice as many sectors as the data. */
  lemma {:induction false} TotalBound(nodes: seq<Entry>)
    ensures PlanOf(nodes).Total() <= 3 * DataCount(nodes) + 4
  {
    var data := DataCount(nodes);
    FatCountIsLeast(data, 0);
    var difat := NeedDifat(data + 2);
    assert difat <= data + 2;
    assert Suffices(data, data + 2, difat);
    hide DataCount, FatCount, Stored, Chained;
    var p := PlanOf(nodes);
    assert p.Total() == data + p.fat + p.difat by { PlanIs(nodes); }
  }

  lemma {:induction false} PlanIs(nodes: seq<Entry>)
    ensures var p := PlanOf(nodes); var data := DataCount(nodes);
            p.Total() == data + p.fat + p.difat && p.fat == FatCount(data, 0) && p.difat == NeedDifat(p.fat)
  {
    hide Stored, Chained, FatCount;
  }

  /** No streams, no data. */
  lemma {:induction false} NothingStored(nodes: seq<Entry>, unit: nat)
    requires unit > 0 && forall s :: 0 <= s < |nodes| ==> IsStorage(nodes[s])
    ensures Stored(nodes, unit) == [] && Chained(nodes, unit) == []
  {
    if nodes != [] { NothingStored(nodes[..|nodes| - 1], unit); }
  }

  lemma {:induction false} NothingChained(nodes: seq<Entry>)
    requires Stored(nodes, MINI_SECTOR) == [] && Chained(nodes, MINI_SECTOR) == [] && 0 < |nodes|
    ensures PlanOf(nodes).Total() <= 3 * |Chained(nodes, SECTOR)| + 3 * |nodes| + 7
  {
    TotalBound(nodes);
  }

  // ---------------------------------------------------------------- too deep

  lemma {:induction false} NestNodes(n: nat)
    ensures |Nodes([Nest(n)])| == n + 1
    ensures forall s :: 0 <= s < |Nodes([Nest(n)])| ==>
              IsStorage(Nodes([Nest(n)])[s]) && Nodes([Nest(n)])[s].name == "" && Nodes([Nest(n)])[s].state == 0
  {
    OneEntry(Nest(n));
    if n > 0 { NestNodes(n - 1); }
  }

  lemma {:induction false} OneEntry(e: Entry)
    ensures Nodes([e]) == [e] + Nodes(e.children)
  {
    assert Nodes([e]) == [e] + Nodes(e.children) + Nodes([]);
  }

  lemma {:induction false} NestIsDeep(n: nat, depth: nat)
    ensures Readable(Nest(n), depth) <==> depth + n <= 64
  {
    if n > 0 {
      NestIsDeep(n - 1, depth + 1);
      assert Nest(n).children[0] == Nest(n - 1);
    }
  }

  /** Storages with short names and nothing stored make a well-formed tree. */
  lemma {:induction false} QuietIsWellFormed(root: Entry)
    requires var nodes := Nodes([root]);
             && 0 < |nodes| <= 2_000_000
             && forall s :: 0 <= s < |nodes| ==> IsStorage(nodes[s]) && nodes[s].name == "" && nodes[s].state == 0
    ensures WellFormed(root)
  {
    var nodes := Nodes([root]);
    NothingStored(nodes, MINI_SECTOR);
    NothingStored(nodes, SECTOR);
    hide Stored, Chained, PlanOf, Nodes;
    NothingChained(nodes);
  }

  /** A root with storages nested more than 64 deep is well formed, is written, and cannot be read back. */
  lemma {:induction false} TooDeep(n: nat)
    requires 64 <= n <= 1_000_000
    ensures var root := Storage(ROOT, [Nest(n)]); WellFormed(root) && root.kind == ROOT && !Readable(root, 0)
  {
    var root := Storage(ROOT, [Nest(n)]);
    OneEntry(root);
    NestNodes(n);
    NestIsDeep(n, 1);
    assert root.children[0] == Nest(n);
    hide WellFormed, Nodes, Nest;
    QuietIsWellFormed(root);
  }

  // ---------------------------------------------------------------- too large

  lemma {:induction false} OneStream(data: seq<byte>)
    requires |data| >= MINI_CUTOFF
    ensures var nodes := [Storage(ROOT, [Stream(data)]), Stream(data)];
            && Stored(nodes, MINI_SECTOR) == [] && Chained(nodes, MINI_SECTOR) == []
            && |Chained(nodes, SECTOR)| == SectorsFor(|data|)
  {
    var root, stream := Storage(ROOT, [Stream(data)]), Stream(data);
    var nodes := [root, stream];
    assert nodes[..1] == [root] && [root][..0] == [];
    NothingStored([root], MINI_SECTOR);
    NothingStored([root], SECTOR);
  }

  /** A root with one stream of 4 GiB or more is well formed, is written, and cannot be read back. */
  lemma {:induction false} TooLarge(data: seq<byte>)
    requires MAX32 < |data| <= 0x10_0000_0000
    ensures var root := Storage(ROOT, [Stream(data)]); WellFormed(root) && root.kind == ROOT && !Readable(root, 0)
  {
    var root := Storage(ROOT, [Stream(data)]);
    var nodes := Nodes([root]);
    OneEntry(root);
    OneEntry(Stream(data));
    assert nodes == [root, Stream(data)];
    assert root.children[0] == Stream(data) && !Readable(Stream(data), 1);
    OneStream(data);
    CeilDivBounds(|data|, SECTOR);
    hide Stored, Chained, PlanOf, Nodes;
    NothingChained(nodes);
  }
}
