/** `write`, second half: streams, allocation tables and the bytes of the file (_cfb.py). */
module CfbWrite {
  import opened CfbFormat
  import opened CfbAlloc
  import opened CfbEntry
  import opened CfbImage

  // ---------------------------------------------------------------- streams

  /** Where the streams among the first `n` entries start, as far as they are placed. */
  ghost predicate MiniStarts(nodes: seq<Entry>, starts: map<nat, nat>, n: nat) {
    forall s: nat :: s < n && s < |nodes| && nodes[s].kind == STREAM && |nodes[s].data| < MINI_CUTOFF ==>
      s in starts && starts[s] == if nodes[s].data == [] then ENDOFCHAIN else |Chained(nodes[..s], MINI_SECTOR)|
  }

  ghost predicate BigStarts(nodes: seq<Entry>, starts: map<nat, nat>, n: nat) {
    forall s: nat :: s < n && s < |nodes| && KeptIn(nodes[s], SECTOR) ==>
      s in starts && starts[s] == |Chained(nodes[..s], SECTOR)|
  }

  lemma {:induction false} ChainIsRange(first: nat, count: nat)
    requires count > 0
    ensures ChainWords(first, count) == Range(first + 1, count - 1) + [ENDOFCHAIN]
  {
  }

  /** One entry more: what is stored and chained. */
  lemma {:induction false} StoredNext(nodes: seq<Entry>, n: nat, unit: nat)
    requires unit > 0 && n < |nodes|
    ensures var e, table := nodes[n], Chained(nodes[..n], unit);
            if KeptIn(e, unit) then
              && Stored(nodes[..n + 1], unit) == Stored(nodes[..n], unit) + Pad(e.data, unit)
              && Chained(nodes[..n + 1], unit) == table + ChainWords(|table|, CeilDiv(|e.data|, unit))
            else Stored(nodes[..n + 1], unit) == Stored(nodes[..n], unit) && Chained(nodes[..n + 1], unit) == table
  {
    hide *;
    var upto := nodes[..n + 1];
    assert upto[..|upto| - 1] == nodes[..n] && upto[n] == nodes[n];
    StoredStep(upto, unit);
  }

  lemma {:induction false} NothingStored(nodes: seq<Entry>, unit: nat)
    requires unit > 0
    ensures Stored(nodes[..0], unit) == [] && Chained(nodes[..0], unit) == [] && nodes[..|nodes|] == nodes
  {
  }

  /** Small streams go to the mini stream; the others wait for their sectors. */
  method CollectMini(nodes: seq<Entry>) returns (mini: Bytes, minifat: seq<nat>, starts: map<nat, nat>)
    ensures mini == Stored(nodes, MINI_SECTOR) && minifat == Chained(nodes, MINI_SECTOR)
    ensures MiniStarts(nodes, starts, |nodes|)
  {
    hide Stored, Chained, ChainWords, Range, Pad, Zeros;
    mini, minifat, starts := [], [], map[];
    NothingStored(nodes, MINI_SECTOR);
    for n := 0 to |nodes|
      invariant mini == Stored(nodes[..n], MINI_SECTOR) && minifat == Chained(nodes[..n], MINI_SECTOR)
      invariant MiniStarts(nodes, starts, n)
    {
      StoredNext(nodes, n, MINI_SECTOR);
      var data := nodes[n].data;
      var size := |data|;
      if nodes[n].kind == STREAM {
        if size == 0 {
          starts := starts[n := ENDOFCHAIN];
        } else if size < MINI_CUTOFF {
          StoredSize(nodes[..n], MINI_SECTOR);
          var first := |mini| / MINI_SECTOR;
          var sectors := CeilDiv(size, MINI_SECTOR);
          CeilDivBounds(size, MINI_SECTOR);
          ChainIsRange(first, sectors);
          PadIs(data, MINI_SECTOR);
          mini := mini + (data + Zeros(sectors * MINI_SECTOR - size));
          minifat := minifat + (Range(first + 1, sectors - 1) + [ENDOFCHAIN]);
          starts := starts[n := first];
        }
      }
    }
  }

  lemma {:induction false} PadIs(data: Bytes, unit: nat)
    requires unit > 0
    ensures |data| <= CeilDiv(|data|, unit) * unit && Pad(data, unit) == data + Zeros(CeilDiv(|data|, unit) * unit - |data|)
  {
    CeilDivBounds(|data|, unit);
  }

  /** `sum(big_counts)`. */
  method CountBig(nodes: seq<Entry>) returns (count: nat)
    ensures count == |Chained(nodes, SECTOR)|
  {
    hide Stored, Chained;
    count := 0;
    NothingStored(nodes, SECTOR);
    for n := 0 to |nodes|
      invariant count == |Chained(nodes[..n], SECTOR)|
    {
      StoredNext(nodes, n, SECTOR);
      if KeptIn(nodes[n], SECTOR) {
        count := count + SectorsFor(|nodes[n].data|);
      }
    }
  }

  // ---------------------------------------------------------------- the FAT

  /** The table with its first part written and the rest free. */
  ghost predicate Written(fat: seq<nat>, part: seq<nat>) {
    |part| <= |fat| && fat == part + Fill(FREESECT, |fat| - |part|)
  }

  lemma {:induction false} WrittenGrow(before: seq<nat>, part: seq<nat>, more: seq<nat>, after: seq<nat>)
    requires Written(before, part) && |part| + |more| <= |before|
    requires after == before[..|part|] + more + before[|part| + |more|..]
    ensures Written(after, part + more) && |after| == |before|
  {
    assert before[..|part|] == part;
    assert before[|part| + |more|..] == Fill(FREESECT, |before| - |part| - |more|);
  }

  /** Filling a stretch of the table with one word. */
  method Mark(fat: array<nat>, cursor: nat, count: nat, word: nat, ghost part: seq<nat>)
    requires |part| == cursor && cursor + count <= fat.Length && Written(fat[..], part)
    modifies fat
    ensures Written(fat[..], part + Fill(word, count))
  {
    ghost var before := fat[..];
    for i := 0 to count
      invariant fat[..] == before[..cursor] + Fill(word, i) + before[cursor + i..]
    {
      fat[cursor + i] := word;
    }
    WrittenGrow(before, part, Fill(word, count), fat[..]);
  }

  lemma {:induction false} ChainedWithin(nodes: seq<Entry>, n: nat, unit: nat)
    requires unit > 0 && n <= |nodes|
    ensures |Chained(nodes[..n], unit)| <= |Chained(nodes, unit)|
    decreases |nodes| - n
  {
    hide *;
    if n < |nodes| {
      StoredNext(nodes, n, unit);
      ChainedWithin(nodes, n + 1, unit);
    } else {
      assert nodes[..n] == nodes;
    }
  }

  /** Large streams get their sectors first, in order. */
  method PlaceBig(nodes: seq<Entry>, fat: array<nat>, starts0: map<nat, nat>) returns (starts: map<nat, nat>, cursor: nat)
    requires |Chained(nodes, SECTOR)| <= fat.Length && Written(fat[..], []) && MiniStarts(nodes, starts0, |nodes|)
    modifies fat
    ensures Written(fat[..], Chained(nodes, SECTOR)) && cursor == |Chained(nodes, SECTOR)|
    ensures MiniStarts(nodes, starts, |nodes|) && BigStarts(nodes, starts, |nodes|)
  {
    hide Stored, Chained, ChainWords, Written, Range;
    starts, cursor := starts0, 0;
    NothingStored(nodes, SECTOR);
    for n := 0 to |nodes|
      invariant Written(fat[..], Chained(nodes[..n], SECTOR)) && cursor == |Chained(nodes[..n], SECTOR)|
      invariant MiniStarts(nodes, starts, |nodes|) && BigStarts(nodes, starts, n)
    {
      if KeptIn(nodes[n], SECTOR) {
        ghost var part, before := Chained(nodes[..n], SECTOR), fat[..];
        var count := SectorsFor(|nodes[n].data|);
        StoredNext(nodes, n, SECTOR);
        ChainedWithin(nodes, n + 1, SECTOR);
        CeilDivBounds(|nodes[n].data|, SECTOR);
        var first: nat;
        first, cursor := Place(fat, cursor, count);
        WrittenGrow(before, part, ChainWords(|part|, count), fat[..]);
        starts := starts[n := first];
      } else {
        StoredNext(nodes, n, SECTOR);
      }
    }
  }

  /** A chain behind what is written so far. */
  method PlaceMore(fat: array<nat>, cursor: nat, count: nat, ghost part: seq<nat>) returns (first: nat, next: nat)
    requires |part| == cursor && cursor + count <= fat.Length && Written(fat[..], part)
    modifies fat
    ensures Written(fat[..], part + ChainWords(cursor, count)) && next == cursor + count
    ensures first == if count == 0 then ENDOFCHAIN else cursor
  {
    ghost var before := fat[..];
    first, next := Place(fat, cursor, count);
    WrittenGrow(before, part, ChainWords(cursor, count), fat[..]);
  }

  lemma {:induction false} FatIsWritten(fat: seq<nat>, nodes: seq<Entry>, p: Plan)
    requires |fat| == PER_SECTOR * p.fat && p.Total() <= |fat| && |Chained(nodes, SECTOR)| == p.big
    requires Written(fat, Chained(nodes, SECTOR) + ChainWords(p.MiniStart(), p.mini) + ChainWords(p.MinifatStart(), p.minifat)
                          + ChainWords(p.DirStart(), p.dir) + Fill(FATSECT, p.fat) + Fill(DIFSECT, p.difat))
    ensures fat == FatWords(nodes, p)
  {
    hide Chained, ChainWords, Fill;
  }

  /** `fat`, `place`: all chains in order, then the FAT and DIFAT sectors themselves. */
  method BuildFat(nodes: seq<Entry>, p: Plan, starts0: map<nat, nat>)
    returns (fat: array<nat>, starts: map<nat, nat>, miniStart: nat, minifatStart: nat, dirStart: nat)
    requires p == PlanOf(nodes) && MiniStarts(nodes, starts0, |nodes|)
    ensures fresh(fat) && fat[..] == FatWords(nodes, p)
    ensures MiniStarts(nodes, starts, |nodes|) && BigStarts(nodes, starts, |nodes|)
    ensures miniStart == (if p.mini == 0 then ENDOFCHAIN else p.MiniStart())
    ensures minifatStart == (if p.minifat == 0 then ENDOFCHAIN else p.MinifatStart())
    ensures dirStart == (if p.dir == 0 then ENDOFCHAIN else p.DirStart())
  {
    hide *;
    SectorSizes();
    PlanSuffices(nodes);
    PlanParts(nodes);
    ghost var a := Chained(nodes, SECTOR);
    fat := new nat[PER_SECTOR * p.fat](_ => FREESECT);
    FreeIsWritten(fat[..]);
    var cursor: nat;
    starts, cursor := PlaceBig(nodes, fat, starts0);
    miniStart, cursor := PlaceMore(fat, cursor, p.mini, a);
    ghost var b := a + ChainWords(p.MiniStart(), p.mini);
    minifatStart, cursor := PlaceMore(fat, cursor, p.minifat, b);
    ghost var c := b + ChainWords(p.MinifatStart(), p.minifat);
    dirStart, cursor := PlaceMore(fat, cursor, p.dir, c);
    ghost var d := c + ChainWords(p.DirStart(), p.dir);
    Mark(fat, cursor, p.fat, FATSECT, d);
    cursor := cursor + p.fat;
    Mark(fat, cursor, p.difat, DIFSECT, d + Fill(FATSECT, p.fat));
    FatIsWritten(fat[..], nodes, p);
  }

  lemma {:induction false} FreeIsWritten(fat: seq<nat>)
    requires forall i :: 0 <= i < |fat| ==> fat[i] == FREESECT
    ensures Written(fat, [])
  {
    assert [] + Fill(FREESECT, |fat|) == fat;
  }

  lemma {:induction false} PlanParts(nodes: seq<Entry>)
    ensures var p := PlanOf(nodes);
            && p.big == |Chained(nodes, SECTOR)| && p.MiniStart() == p.big && p.MinifatStart() == p.MiniStart() + p.mini
            && p.DirStart() == p.MinifatStart() + p.minifat && p.FatStart() == p.DirStart() + p.dir
            && p.DifatStart() == p.FatStart() + p.fat && p.Total() == p.DifatStart() + p.difat
            && p.mini == SectorsFor(|Stored(nodes, MINI_SECTOR)|)
            && p.minifat == SectorsFor(4 * |Chained(nodes, MINI_SECTOR)|) && p.dir == SectorsFor(128 * |nodes|)
            && p.fat == FatCount(p.FatStart(), 0) && p.difat == NeedDifat(p.fat)
  {
  }
}
