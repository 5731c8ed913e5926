/** Opening a written file finds the tables, the directory and the mini stream that were written. */
module CfbVolume {
  import opened Base
  import opened CfbFormat
  import opened CfbAlloc
  import opened CfbEntry
  import opened CfbTree
  import opened CfbImage
  import opened CfbFields
  import CfbRead

  // ---------------------------------------------------------------- rows of sectors

  /** A row of sectors is read as the bytes that lie there. */
  lemma {:induction false} JoinRow(raw: Bytes, start: nat, count: nat)
    requires (start + count + 1) * SECTOR <= |raw|
    ensures CfbRead.JoinSectors(raw, SECTOR, Range(start, count))
         == Ok(raw[(start + 1) * SECTOR..(start + count + 1) * SECTOR])
    decreases count
  {
    if count > 0 {
      JoinRow(raw, start + 1, count - 1);
      assert Range(start, count)[0] == start && Range(start, count)[1..] == Range(start + 1, count - 1);
      assert (start + 2) * SECTOR <= |raw|;
      JoinSlices(raw, (start + 1) * SECTOR, (start + 2) * SECTOR, (start + count + 1) * SECTOR);
    } else {
      assert raw[(start + 1) * SECTOR..(start + 1) * SECTOR] == [];
    }
  }

  /** A region whose sectors are chained in a row is read back whole. */
  lemma {:induction false} RegularRow(raw: Bytes, fat: seq<nat>, start: nat, count: nat, part: Bytes)
    requires HasSlice(fat, start, ChainWords(start, count)) && start + count <= MAXREGSECT + 1
    requires HasSlice(raw, (start + 1) * SECTOR, part) && |part| == count * SECTOR
    ensures CfbRead.Regular(raw, SECTOR, fat, if count == 0 then ENDOFCHAIN else start) == Ok(part)
  {
    FollowChain(start, count, fat);
    JoinRow(raw, start, count);
  }

  // ---------------------------------------------------------------- the list of FAT sectors

  lemma {:induction false} RegularSlots(p: Plan, k: nat, n: nat)
    requires p.DifatStart() <= MAXREGSECT + 1
    ensures var m := if k + n <= p.fat then n else Less(p.fat, k);
            m <= n && CfbRead.RegularOnly(Slots(p, k, n)) == Range(p.FatStart() + k, m)
    decreases n
  {
    if n > 0 {
      RegularSlots(p, k + 1, n - 1);
      assert Slots(p, k, n)[0] == Slot(p, k) && Slots(p, k, n)[1..] == Slots(p, k + 1, n - 1);
      if k < p.fat {
        var m := if k + n <= p.fat then n else Less(p.fat, k);
        assert Range(p.FatStart() + k, m) == [p.FatStart() + k] + Range(p.FatStart() + (k + 1), m - 1);
      } else {
        assert [] + Range(p.FatStart() + (k + 1), 0) == [] == Range(p.FatStart() + k, 0);
      }
    }
  }

  /** The DIFAT sectors lie where the plan says. */
  ghost predicate DifatPlaced(raw: Bytes, p: Plan)
    requires DifatFits(p)
  {
    forall i :: 0 <= i < p.difat ==> HasSlice(raw, (p.DifatStart() + i + 1) * SECTOR, Words(DifatWords(p, i)))
  }

  lemma {:induction false} DifatSector(raw: Bytes, p: Plan, i: nat)
    requires DifatFits(p) && DifatPlaced(raw, p) && i < p.difat
    ensures CfbRead.SectorBytes(raw, SECTOR, p.DifatStart() + i) == Ok(Words(DifatWords(p, i)))
  {
    assert (p.DifatStart() + i + 2) * SECTOR == (p.DifatStart() + i + 1) * SECTOR + SECTOR;
    CfbRead.SectorInside(raw, SECTOR, p.DifatStart() + i);
  }

  /** Following the DIFAT from sector `i` on lists the FAT sectors it and its successors hold. */
  lemma {:induction false} DifatFrom(raw: Bytes, p: Plan, i: nat, seen: set<nat>)
    requires DifatFits(p) && DifatPlaced(raw, p) && i < p.difat && p.Total() <= MAXREGSECT + 1
    requires forall s :: s in seen ==> s < p.DifatStart() + i
    requires p.fat <= SlotsBefore(p.difat) && (p.difat > 0 ==> SlotsBefore(p.difat - 1) < p.fat)
    ensures var k := SlotsBefore(i);
            k <= p.fat && CfbRead.DifatFat(raw, SECTOR, p.DifatStart() + i, seen) == Ok(Range(p.FatStart() + k, p.fat - k))
    decreases p.difat - i
  {
    hide *;
    var k: nat := SlotsBefore(i);
    var next: nat, seen' := NextDifat(p, i), seen + {p.DifatStart() + i};
    SlotsBounds(p, i);
    StartsInOrder(p);
    NextDifatIs(p, i);
    var rest: seq<nat> := Range(p.FatStart() + k + Listed(p, i), p.fat - k - Listed(p, i));
    if i + 1 < p.difat {
      DifatFrom(raw, p, i + 1, seen');
    } else {
      EndOfDifat(raw, seen');
      RangeEmpty(p.FatStart() + k + Listed(p, i));
    }
    DifatStep(raw, p, i, seen, seen', next, rest);
    RangeJoin(p.FatStart() + k, Listed(p, i), p.fat - k - Listed(p, i));
  }

  /** The slots before DIFAT sector `i`. */
  ghost function SlotsBefore(i: nat): nat { HEADER_DIFAT + i * PER_DIFAT }

  /** How many FAT sectors DIFAT sector `i` lists. */
  ghost function Listed(p: Plan, i: nat): nat {
    if SlotsBefore(i) + PER_DIFAT <= p.fat then PER_DIFAT else Less(p.fat, SlotsBefore(i))
  }

  lemma {:induction false} SlotsBounds(p: Plan, i: nat)
    requires i < p.difat && p.fat <= SlotsBefore(p.difat) && (p.difat > 0 ==> SlotsBefore(p.difat - 1) < p.fat)
    ensures SlotsBefore(i) + Listed(p, i) <= p.fat
    ensures i + 1 < p.difat ==> SlotsBefore(i + 1) == SlotsBefore(i) + Listed(p, i) <= p.fat
    ensures i + 1 == p.difat ==> SlotsBefore(i) + Listed(p, i) == p.fat
  {
    if i + 1 < p.difat { assert SlotsBefore(i + 1) <= SlotsBefore(p.difat - 1); }
  }

  lemma {:induction false} RangeEmpty(first: nat)
    ensures Range(first, 0) == []
  {
  }

  lemma {:induction false} StartsInOrder(p: Plan)
    ensures p.DifatStart() == p.FatStart() + p.fat && p.Total() == p.DifatStart() + p.difat
  {
  }

  lemma {:induction false} EndOfDifat(raw: Bytes, seen: set<nat>)
    ensures CfbRead.DifatFat(raw, SECTOR, ENDOFCHAIN, seen) == Ok([])
  {
  }

  lemma {:induction false} NextDifatIs(p: Plan, i: nat)
    ensures NextDifat(p, i) == if i + 1 < p.difat then p.DifatStart() + i + 1 else ENDOFCHAIN
  {
  }

  lemma {:induction false} LessIs(a: nat, b: nat)
    ensures b <= a ==> Less(a, b) == a - b
  {
  }

  lemma {:induction false} DifatStep(raw: Bytes, p: Plan, i: nat, seen: set<nat>, seen': set<nat>, next: nat, rest: seq<nat>)
    requires DifatFits(p) && DifatPlaced(raw, p) && i < p.difat && p.Total() <= MAXREGSECT + 1
    requires p.DifatStart() + i !in seen && seen' == seen + {p.DifatStart() + i} && next == NextDifat(p, i)
    requires CfbRead.DifatFat(raw, SECTOR, next, seen') == Ok(rest)
    ensures CfbRead.DifatFat(raw, SECTOR, p.DifatStart() + i, seen)
         == Ok(Range(p.FatStart() + SlotsBefore(i), Listed(p, i)) + rest)
  {
    hide Slots, WordsOf, Words, CfbRead.RegularOnly, DifatPlaced, CfbRead.SectorBytes;
    var values, slots := DifatWords(p, i), Slots(p, SlotsBefore(i), PER_DIFAT);
    DifatSector(raw, p, i);
    WordsRoundTrip(values);
    RegularSlots(p, SlotsBefore(i), PER_DIFAT);
    assert values == slots + [next];
    assert values[..|values| - 1] == slots && values[|values| - 1] == next;
  }

  lemma {:induction false} RangeJoin(first: nat, m: nat, n: nat)
    ensures Range(first, m) + Range(first + m, n) == Range(first, m + n)
  {
  }

  // ---------------------------------------------------------------- the regions of a file

  /** Bounds under which version 3 can address everything. */
  ghost predicate InRange(nodes: seq<Entry>, links: seq<Link>) {
    && nodes != [] && |nodes| <= CfbTree.NOSTREAM
    && Fits(nodes, PlanOf(nodes), links)
    && PlanOf(nodes).Total() <= MAXREGSECT + 1
    && |Stored(nodes, MINI_SECTOR)| <= MAX32
  }

  /** Every region lies where the plan says. */
  ghost predicate Placed(raw: Bytes, nodes: seq<Entry>, links: seq<Link>, p: Plan)
    requires Fits(nodes, p, links)
  {
    && HasSlice(raw, 0, Header(p))
    && HasSlice(raw, SECTOR, Stored(nodes, SECTOR)) && |Stored(nodes, SECTOR)| == p.big * SECTOR
    && HasSlice(raw, (p.MiniStart() + 1) * SECTOR, Pad(Stored(nodes, MINI_SECTOR), SECTOR))
    && HasSlice(raw, (p.MinifatStart() + 1) * SECTOR, Words(MinifatWords(nodes, p)))
    && |Words(MinifatWords(nodes, p))| == p.minifat * SECTOR
    && HasSlice(raw, (p.DirStart() + 1) * SECTOR, Join(Records(nodes, p, links)))
    && |Join(Records(nodes, p, links))| == p.dir * SECTOR
    && HasSlice(raw, (p.FatStart() + 1) * SECTOR, Words(FatWords(nodes, p)))
    && |Words(FatWords(nodes, p))| == p.fat * SECTOR
    && HasSlice(raw, (p.DifatStart() + 1) * SECTOR, Join(DifatSectors(p)))
  }

  lemma {:induction false} MinifatSize(nodes: seq<Entry>)
    ensures var p := PlanOf(nodes);
            |MinifatWords(nodes, p)| == PER_SECTOR * p.minifat && |Chained(nodes, MINI_SECTOR)| <= PER_SECTOR * p.minifat
  {
    CeilDivBounds(4 * |Chained(nodes, MINI_SECTOR)|, SECTOR);
  }

  lemma {:induction false} FatSize(nodes: seq<Entry>)
    ensures var p := PlanOf(nodes); |FatWords(nodes, p)| == PER_SECTOR * p.fat
  {
    PlanSuffices(nodes);
  }

  lemma {:induction false} RecordsSize(nodes: seq<Entry>, links: seq<Link>)
    requires DirectoryFits(nodes, PlanOf(nodes), links)
    ensures var p := PlanOf(nodes);
            && |Records(nodes, p, links)| == 4 * p.dir && |nodes| <= 4 * p.dir
            && |Join(Records(nodes, p, links))| == p.dir * SECTOR
  {
    CeilDivBounds(128 * |nodes|, SECTOR);
    JoinLength(Records(nodes, PlanOf(nodes), links), 128);
  }

  lemma {:induction false} ImageIsPlaced(nodes: seq<Entry>, links: seq<Link>)
    requires Fits(nodes, PlanOf(nodes), links)
    ensures Placed(Image(nodes, links), nodes, links, PlanOf(nodes))
  {
    hide *;
    var p := PlanOf(nodes);
    ImageSizes(nodes, links);
    HeaderSize(p);
    ImageIs(nodes, links);
    SevenRegions(Header(p), Stored(nodes, SECTOR), Pad(Stored(nodes, MINI_SECTOR), SECTOR),
                 Words(MinifatWords(nodes, p)), Join(Records(nodes, p, links)), Words(FatWords(nodes, p)),
                 Join(DifatSectors(p)), p);
    PlacedIs(Image(nodes, links), nodes, links, p);
  }

  lemma {:induction false} HeaderSize(p: Plan)
    ensures SECTOR > 0 && MINI_SECTOR > 0
    ensures Packable(HeaderWords(p)) && Packable(HeadWords(p)) ==> |Header(p)| == SECTOR
  {
  }

  lemma {:induction false} ImageIs(nodes: seq<Entry>, links: seq<Link>)
    requires Fits(nodes, PlanOf(nodes), links)
    ensures var p := PlanOf(nodes);
            && Packable(HeaderWords(p)) && Packable(HeadWords(p)) && Packable(MinifatWords(nodes, p))
            && Packable(FatWords(nodes, p)) && DirectoryFits(nodes, p, links) && DifatFits(p)
            && Image(nodes, links) == Header(p) + Stored(nodes, SECTOR) + Pad(Stored(nodes, MINI_SECTOR), SECTOR)
                 + Words(MinifatWords(nodes, p)) + Join(Records(nodes, p, links)) + Words(FatWords(nodes, p))
                 + Join(DifatSectors(p))
  {
    hide PlanOf, Stored, MinifatWords, FatWords, Records, DifatSectors, Header, DirectoryFits, DifatFits, Packable;
  }

  lemma {:induction false} PlacedIs(raw: Bytes, nodes: seq<Entry>, links: seq<Link>, p: Plan)
    requires Fits(nodes, p, links)
    requires && HasSlice(raw, 0, Header(p))
             && HasSlice(raw, SECTOR, Stored(nodes, SECTOR)) && |Stored(nodes, SECTOR)| == p.big * SECTOR
             && HasSlice(raw, (p.MiniStart() + 1) * SECTOR, Pad(Stored(nodes, MINI_SECTOR), SECTOR))
             && HasSlice(raw, (p.MinifatStart() + 1) * SECTOR, Words(MinifatWords(nodes, p)))
             && |Words(MinifatWords(nodes, p))| == p.minifat * SECTOR
             && HasSlice(raw, (p.DirStart() + 1) * SECTOR, Join(Records(nodes, p, links)))
             && |Join(Records(nodes, p, links))| == p.dir * SECTOR
             && HasSlice(raw, (p.FatStart() + 1) * SECTOR, Words(FatWords(nodes, p)))
             && |Words(FatWords(nodes, p))| == p.fat * SECTOR
             && HasSlice(raw, (p.DifatStart() + 1) * SECTOR, Join(DifatSectors(p)))
    ensures Placed(raw, nodes, links, p)
  {
    hide HasSlice, Header, Stored, Pad, Words, MinifatWords, FatWords, Records, Join, DifatSectors, Packable, DirectoryFits,
         DifatFits, HeaderWords, HeadWords;
  }

  lemma {:induction false} ImageSizes(nodes: seq<Entry>, links: seq<Link>)
    requires Fits(nodes, PlanOf(nodes), links)
    ensures var p := PlanOf(nodes);
            && |Stored(nodes, SECTOR)| == p.big * SECTOR && |Pad(Stored(nodes, MINI_SECTOR), SECTOR)| == p.mini * SECTOR
            && |Words(MinifatWords(nodes, p))| == p.minifat * SECTOR
            && |Join(Records(nodes, p, links))| == p.dir * SECTOR && |Words(FatWords(nodes, p))| == p.fat * SECTOR
  {
    MinifatSize(nodes);
    FatSize(nodes);
    RecordsSize(nodes, links);
    StoredSize(nodes, SECTOR);
  }

  lemma {:induction false} SevenRegions(h: Bytes, a: Bytes, b: Bytes, c: Bytes, d: Bytes, e: Bytes, f: Bytes, p: Plan)
    requires |h| == SECTOR && |a| == p.big * SECTOR && |b| == p.mini * SECTOR && |c| == p.minifat * SECTOR
    requires |d| == p.dir * SECTOR && |e| == p.fat * SECTOR
    ensures var raw := h + a + b + c + d + e + f;
            && HasSlice(raw, 0, h) && HasSlice(raw, SECTOR, a)
            && HasSlice(raw, (p.MiniStart() + 1) * SECTOR, b) && HasSlice(raw, (p.MinifatStart() + 1) * SECTOR, c)
            && HasSlice(raw, (p.DirStart() + 1) * SECTOR, d) && HasSlice(raw, (p.FatStart() + 1) * SECTOR, e)
            && HasSlice(raw, (p.DifatStart() + 1) * SECTOR, f)
  {
    hide HasSlice;
    SixParts(h, a, b, c, d, e);
    var r := h + a + b + c + d + e;
    SliceEnd(r, f);
    SliceGrow(r, f, 0, h);
    SliceGrow(r, f, |h|, a);
    SliceGrow(r, f, |h| + |a|, b);
    SliceGrow(r, f, |h| + |a| + |b|, c);
    SliceGrow(r, f, |h| + |a| + |b| + |c|, d);
    SliceGrow(r, f, |h| + |a| + |b| + |c| + |d|, e);
  }

  // ---------------------------------------------------------------- the tables come back

  lemma {:induction false} JoinAt(blocks: seq<Bytes>, size: nat, i: nat)
    requires AllOf(blocks, size) && i < |blocks|
    ensures HasSlice(Join(blocks), i * size, blocks[i])
  {
    if i == 0 {
      SlicePair(blocks[0], Join(blocks[1..]));
    } else {
      JoinAt(blocks[1..], size, i - 1);
      SlicePair(blocks[0], Join(blocks[1..]));
      SliceInside(Join(blocks), size, Join(blocks[1..]), (i - 1) * size, blocks[i]);
      assert size + (i - 1) * size == i * size;
    }
  }

  lemma {:induction false} DifatIsPlaced(raw: Bytes, p: Plan)
    requires DifatFits(p) && HasSlice(raw, (p.DifatStart() + 1) * SECTOR, Join(DifatSectors(p)))
    ensures DifatPlaced(raw, p)
  {
    forall i | 0 <= i < p.difat
      ensures HasSlice(raw, (p.DifatStart() + i + 1) * SECTOR, Words(DifatWords(p, i)))
    {
      JoinAt(DifatSectors(p), SECTOR, i);
      SliceInside(raw, (p.DifatStart() + 1) * SECTOR, Join(DifatSectors(p)), i * SECTOR, Words(DifatWords(p, i)));
    }
  }

  /** The header and the DIFAT list exactly the FAT sectors, in order. */
  lemma {:induction false} FatSectorsFound(raw: Bytes, nodes: seq<Entry>)
    requires var p := PlanOf(nodes); Packable(HeaderWords(p)) && Packable(HeadWords(p)) && HasSlice(raw, 0, Header(p))
    requires DifatFits(PlanOf(nodes)) && DifatPlaced(raw, PlanOf(nodes)) && PlanOf(nodes).Total() <= MAXREGSECT + 1
    ensures |raw| >= 512
    ensures CfbRead.Before(CfbRead.HeaderFat(raw), CfbRead.DifatFat(raw, SECTOR, Get32(raw, 0x44), {}))
         == Ok(Range(PlanOf(nodes).FatStart(), PlanOf(nodes).fat))
  {
    hide *;
    var p := PlanOf(nodes);
    PlanSuffices(nodes);
    SlotsBeforeIs(p.difat);
    HeaderFields(raw, p);
    HeaderDifat(raw, p);
    StartsInOrder(p);
    RegularSlots(p, 0, HEADER_DIFAT);
    LessIs(p.fat, 0);
    if p.difat > 0 {
      DifatFrom(raw, p, 0, {});
      RangeJoin(p.FatStart(), HEADER_DIFAT, p.fat - HEADER_DIFAT);
      BeforeOk(Range(p.FatStart(), HEADER_DIFAT), Range(p.FatStart() + HEADER_DIFAT, p.fat - HEADER_DIFAT));
    } else {
      EndOfDifat(raw, {});
      CfbRead.BeforeJoin(Range(p.FatStart(), p.fat), [], Ok([]));
    }
  }

  lemma {:induction false} SlotsBeforeIs(n: nat)
    ensures SlotsBefore(0) == HEADER_DIFAT && SlotsBefore(n) == HEADER_DIFAT + PER_DIFAT * n
    ensures n > 0 ==> SlotsBefore(n - 1) == HEADER_DIFAT + PER_DIFAT * (n - 1)
  {
  }

  lemma {:induction false} BeforeOk(a: seq<nat>, b: seq<nat>)
    ensures CfbRead.Before(a, Ok(b)) == Ok(a + b)
  {
  }

  /** What the header says about the list of FAT sectors. */
  lemma {:induction false} HeaderDifat(raw: Bytes, p: Plan)
    requires |raw| >= 512 && Packable(HeadWords(p)) && raw[0x4C..0x200] == Words(HeadWords(p))
    requires forall k: nat :: k < 8 ==> Get32(raw, 0x2C + 4 * k) == HeaderWords(p)[k]
    ensures CfbRead.HeaderFat(raw) == CfbRead.RegularOnly(Slots(p, 0, HEADER_DIFAT))
    ensures Get32(raw, 0x44) == if p.difat > 0 then p.DifatStart() else ENDOFCHAIN
  {
    hide Words, WordsOf, Slots, CfbRead.RegularOnly;
    assert Get32(raw, 0x2C + 4 * 6) == HeaderWords(p)[6];
    WordsRoundTrip(HeadWords(p));
  }

  lemma {:induction false} FatFound(raw: Bytes, nodes: seq<Entry>, links: seq<Link>)
    requires InRange(nodes, links) && Placed(raw, nodes, links, PlanOf(nodes))
    ensures |raw| >= 512 && CfbRead.Fat(raw, SECTOR) == Ok(FatWords(nodes, PlanOf(nodes)))
  {
    hide FatWords, Words, WordsOf, PlanOf, Stored, Records, MinifatWords, Join, Chained, Pad;
    var p := PlanOf(nodes);
    DifatIsPlaced(raw, p);
    FatSectorsFound(raw, nodes);
    JoinFat(raw, p.FatStart(), p.fat, Words(FatWords(nodes, p)));
    WordsRoundTrip(FatWords(nodes, p));
  }

  lemma {:induction false} JoinFat(raw: Bytes, start: nat, count: nat, part: Bytes)
    requires HasSlice(raw, (start + 1) * SECTOR, part) && |part| == count * SECTOR
    ensures CfbRead.JoinSectors(raw, SECTOR, Range(start, count)) == Ok(part)
  {
    assert (start + count + 1) * SECTOR == (start + 1) * SECTOR + count * SECTOR;
    JoinRow(raw, start, count);
  }

  /** The chains of the FAT: big streams, mini stream, mini FAT, directory. */
  lemma {:induction false} FatChains(nodes: seq<Entry>)
    ensures var p, fat := PlanOf(nodes), FatWords(nodes, PlanOf(nodes));
            && HasSlice(fat, 0, Chained(nodes, SECTOR))
            && HasSlice(fat, p.MiniStart(), ChainWords(p.MiniStart(), p.mini))
            && HasSlice(fat, p.MinifatStart(), ChainWords(p.MinifatStart(), p.minifat))
            && HasSlice(fat, p.DirStart(), ChainWords(p.DirStart(), p.dir))
  {
    hide *;
    SectorSizes();
    var p := PlanOf(nodes);
    var a, b := Chained(nodes, SECTOR), ChainWords(p.MiniStart(), p.mini);
    var c, d := ChainWords(p.MinifatStart(), p.minifat), ChainWords(p.DirStart(), p.dir);
    var e, f := Fill(FATSECT, p.fat), Fill(DIFSECT, p.difat);
    var g := Fill(FREESECT, Less(PER_SECTOR * p.fat, p.Total()));
    FatIs(nodes);
    SixParts(a, b, c, d, e, f);
    var r := a + b + c + d + e + f;
    SliceGrow(r, g, 0, a);
    SliceGrow(r, g, |a|, b);
    SliceGrow(r, g, |a| + |b|, c);
    SliceGrow(r, g, |a| + |b| + |c|, d);
  }

  lemma {:induction false} FatIs(nodes: seq<Entry>)
    ensures var p := PlanOf(nodes);
            && |Chained(nodes, SECTOR)| == p.MiniStart() && p.MinifatStart() == p.MiniStart() + p.mini
            && p.DirStart() == p.MinifatStart() + p.minifat
            && FatWords(nodes, p) == Chained(nodes, SECTOR) + ChainWords(p.MiniStart(), p.mini)
                 + ChainWords(p.MinifatStart(), p.minifat) + ChainWords(p.DirStart(), p.dir) + Fill(FATSECT, p.fat)
                 + Fill(DIFSECT, p.difat) + Fill(FREESECT, Less(PER_SECTOR * p.fat, p.Total()))
  {
  }
}
