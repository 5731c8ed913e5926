/** What a written file holds beside its entries (_cfb.py `write`), in numbers: the slots that list FAT sectors, free entries of
    the mini FAT, empty directory records, and the end of the mini stream. */
module CfbUnused {
  import opened Base
  import opened CfbFormat
  import opened CfbAlloc
  import opened CfbEntry
  import opened CfbTree
  import opened CfbImage
  import opened CfbFields
  import opened CfbVolume
  import opened CfbBytes

  // ---------------------------------------------------------------- slots

  /** Header and DIFAT sectors list the FAT sectors in order; a slot left over is free, and each DIFAT sector names the next. */
  ghost predicate SlotsRight(raw: Bytes, p: Plan) {
    && |raw| >= 512 && 512 * (p.DifatStart() + p.difat + 1) <= |raw|
    && (forall k: nat :: k < 109 ==> Get32(raw, 76 + 4 * k) == SlotOf(p, k))
    && forall i: nat :: i < p.difat ==> SectorRight(raw, p, i)
  }

  ghost predicate SectorRight(raw: Bytes, p: Plan, i: nat)
    requires i < p.difat && 512 * (p.DifatStart() + p.difat + 1) <= |raw|
  {
    var at := 512 * (p.DifatStart() + i + 1);
    && (forall j: nat :: j < 127 ==> Get32(raw, at + 4 * j) == SlotOf(p, 109 + 127 * i + j))
    && Get32(raw, at + 508) == if i + 1 < p.difat then p.DifatStart() + i + 1 else 0xFFFF_FFFE
  }

  ghost function SlotOf(p: Plan, k: nat): nat { if k < p.fat then p.FatStart() + k else 0xFFFF_FFFF }

  lemma {:induction false} HeadSlots(raw: Bytes, p: Plan, k: nat)
    requires Packable(HeaderWords(p)) && Packable(HeadWords(p)) && HasSlice(raw, 0, Header(p)) && k < 109
    ensures 80 + 4 * k <= |raw| && Get32(raw, 76 + 4 * k) == SlotOf(p, k)
  {
    HeaderParts(p);
    hide Header, Words, HeaderWords, U16, Zeros;
    SliceInside(raw, 0, Header(p), 76, Words(HeadWords(p)));
    FieldWord(raw, 76, HeadWords(p), k);
  }

  lemma {:induction false} SectorSlots(raw: Bytes, p: Plan, i: nat)
    requires DifatFits(p) && DifatPlaced(raw, p) && i < p.difat && 512 * (p.DifatStart() + p.difat + 1) <= |raw|
    ensures SectorRight(raw, p, i)
  {
    hide *;
    NumbersAre();
    DifatLies(raw, p, i);
    var at, words := 512 * (p.DifatStart() + i + 1), DifatWords(p, i);
    DifatSays(p, i);
    forall j: nat | j < 127
      ensures Get32(raw, at + 4 * j) == SlotOf(p, 109 + 127 * i + j)
    {
      FieldWord(raw, at, words, j);
    }
    FieldWord(raw, at, words, 127);
    IsSector(raw, p, i);
  }

  lemma {:induction false} DifatLies(raw: Bytes, p: Plan, i: nat)
    requires DifatFits(p) && DifatPlaced(raw, p) && i < p.difat
    ensures Packable(DifatWords(p, i)) && HasSlice(raw, 512 * (p.DifatStart() + i + 1), Words(DifatWords(p, i)))
  {
    hide DifatWords, Packable, Words, HasSlice;
    assert HasSlice(raw, (p.DifatStart() + i + 1) * SECTOR, Words(DifatWords(p, i)));
  }

  lemma {:induction false} DifatSays(p: Plan, i: nat)
    requires i < p.difat
    ensures var words := DifatWords(p, i);
            && |words| == 128 && (forall j: nat :: j < 127 ==> words[j] == SlotOf(p, 109 + 127 * i + j))
            && words[127] == if i + 1 < p.difat then p.DifatStart() + i + 1 else 0xFFFF_FFFE
  {
    var words := DifatWords(p, i);
    forall j: nat | j < 127
      ensures words[j] == SlotOf(p, 109 + 127 * i + j)
    {
      assert words[j] == Slot(p, HEADER_DIFAT + i * PER_DIFAT + j);
    }
  }

  lemma {:induction false} IsSector(raw: Bytes, p: Plan, i: nat)
    requires i < p.difat && 512 * (p.DifatStart() + p.difat + 1) <= |raw|
    requires forall j: nat :: j < 127 ==> Get32(raw, 512 * (p.DifatStart() + i + 1) + 4 * j) == SlotOf(p, 109 + 127 * i + j)
    requires Get32(raw, 512 * (p.DifatStart() + i + 1) + 508) == if i + 1 < p.difat then p.DifatStart() + i + 1 else 0xFFFF_FFFE
    ensures SectorRight(raw, p, i)
  {
    hide SlotOf, Get32;
  }

  // ---------------------------------------------------------------- the mini FAT and the mini stream

  /** Behind the chains of the small streams the mini FAT is free, and behind their data the mini stream is zero. */
  ghost predicate MiniRight(raw: Bytes, p: Plan, used: nat) {
    && (forall s: nat :: used <= s < 128 * p.minifat ==> FreeWord(raw, p.MinifatStart(), s))
    && var at := 512 * (p.MiniStart() + 1);
    && at + 512 * p.mini <= |raw|
    && forall x: nat :: at + 64 * used <= x < at + 512 * p.mini ==> raw[x] == 0
  }

  /** Word `s` of the table from sector `first` on is free. */
  ghost predicate FreeWord(raw: Bytes, first: nat, s: nat) {
    var at := 512 * (first + 1) + 4 * s;
    at + 4 <= |raw| && Get32(raw, at) == 0xFFFF_FFFF
  }

  lemma {:induction false} MinifatFree(raw: Bytes, nodes: seq<Entry>, s: nat)
    requires var p := PlanOf(nodes);
             && Packable(MinifatWords(nodes, p)) && HasSlice(raw, 512 * (p.MinifatStart() + 1), Words(MinifatWords(nodes, p)))
             && |Chained(nodes, 64)| <= s < 128 * p.minifat
    ensures FreeWord(raw, PlanOf(nodes).MinifatStart(), s)
  {
    hide *;
    var p := PlanOf(nodes);
    MinifatSize(nodes);
    NumbersAre();
    MinifatIs(nodes, p);
    LessIs(128 * p.minifat, |Chained(nodes, 64)|);
    FillIs(FREESECT, 128 * p.minifat - |Chained(nodes, 64)|);
    FieldWord(raw, 512 * (p.MinifatStart() + 1), MinifatWords(nodes, p), s);
    IsFree(raw, p.MinifatStart(), s);
  }

  lemma {:induction false} IsFree(raw: Bytes, first: nat, s: nat)
    requires 512 * (first + 1) + 4 * s + 4 <= |raw| && Get32(raw, 512 * (first + 1) + 4 * s) == 0xFFFF_FFFF
    ensures FreeWord(raw, first, s)
  {
  }

  lemma {:induction false} MinifatIs(nodes: seq<Entry>, p: Plan)
    ensures MinifatWords(nodes, p) == Chained(nodes, 64) + Fill(FREESECT, Less(128 * p.minifat, |Chained(nodes, 64)|))
  {
  }

  lemma {:induction false} MiniEnd(raw: Bytes, nodes: seq<Entry>)
    requires HasSlice(raw, 512 * (PlanOf(nodes).MiniStart() + 1), Pad(Stored(nodes, 64), 512))
    ensures var p, at := PlanOf(nodes), 512 * (PlanOf(nodes).MiniStart() + 1);
            && at + 512 * p.mini <= |raw|
            && forall x: nat :: at + 64 * |Chained(nodes, 64)| <= x < at + 512 * p.mini ==> raw[x] == 0
  {
    var p, mini := PlanOf(nodes), Stored(nodes, 64);
    var at := 512 * (p.MiniStart() + 1);
    assert p.mini == CeilDiv(|mini|, 512);
    hide PlanOf, Stored, Chained;
    StoredSize(nodes, 64);
    CeilDivBounds(|mini|, 512);
    var padded := Pad(mini, 512);
    assert |padded| == 512 * p.mini;
    forall x: nat | at + |mini| <= x < at + 512 * p.mini
      ensures raw[x] == 0
    {
      assert raw[at..at + |padded|][x - at] == padded[x - at];
    }
  }

  // ---------------------------------------------------------------- empty records

  /** A record that no entry uses: zeros, and three times no entry. */
  ghost predicate EmptyAt(raw: Bytes, at: nat) {
    at + 128 <= |raw| && forall x: nat :: at <= x < at + 128 ==> raw[x] == if at + 68 <= x < at + 80 then 0xFF else 0
  }

  lemma {:induction false} EmptySays()
    ensures forall i: nat :: i < 128 ==> EmptyRecord()[i] == if 68 <= i < 80 then 0xFF else 0
  {
    assert U32(NOSTREAM) == [0xFF, 0xFF, 0xFF, 0xFF];
  }

  lemma {:induction false} EmptyLies(raw: Bytes, at: nat)
    requires HasSlice(raw, at, EmptyRecord())
    ensures EmptyAt(raw, at)
  {
    EmptySays();
    hide EmptyRecord;
    forall x: nat | at <= x < at + 128
      ensures raw[x] == EmptyRecord()[x - at]
    {
      assert raw[at..at + 128][x - at] == raw[x];
    }
  }

  lemma {:induction false} RecordsAre(nodes: seq<Entry>, links: seq<Link>)
    requires DirectoryFits(nodes, PlanOf(nodes), links)
    ensures var p, records := PlanOf(nodes), Records(nodes, PlanOf(nodes), links);
            |nodes| <= 4 * p.dir ==>
              |records| == 4 * p.dir && forall s :: |nodes| <= s < 4 * p.dir ==> records[s] == EmptyRecord()
  {
    hide PlanOf, Record, EmptyRecord;
  }

  // ---------------------------------------------------------------- the whole file

  ghost predicate UnusedRight(raw: Bytes, nodes: seq<Entry>) {
    var p := PlanOf(nodes);
    && HeaderCounts(raw, p) && SlotsRight(raw, p) && MiniRight(raw, p, |Chained(nodes, 64)|)
    && |nodes| <= 4 * p.dir
    && forall s: nat :: |nodes| <= s < 4 * p.dir ==> EmptyAt(raw, 512 * (p.DirStart() + 1) + 128 * s)
  }

  /** In every file that is written, what no entry uses is as it has to be. */
  lemma {:induction false} UnusedIsRight(nodes: seq<Entry>, links: seq<Link>)
    requires InRange(nodes, links)
    ensures Fits(nodes, PlanOf(nodes), links)
    ensures UnusedRight(Image(nodes, links), nodes)
  {
    hide *;
    FitsInRange(nodes, links);
    var raw, p := Image(nodes, links), PlanOf(nodes);
    ImageIsPlaced(nodes, links);
    ImageSize(nodes, links);
    InRangeSays(raw, nodes, links);
    CountsFound(raw, p);
    SlotsAre(raw, p);
    DirectoryPlaced(raw, nodes, links);
    RecordsAre(nodes, links);
    RecordsHold(nodes);
    MiniPlaced(raw, nodes, links);
    MiniAre(raw, nodes);
    forall s: nat | |nodes| <= s < 4 * p.dir
      ensures EmptyAt(raw, 512 * (p.DirStart() + 1) + 128 * s)
    {
      var records := Records(nodes, p, links);
      JoinAt(records, 128, s);
      SliceInside(raw, 512 * (p.DirStart() + 1), Join(records), s * 128, records[s]);
      EmptyLies(raw, 512 * (p.DirStart() + 1) + 128 * s);
    }
    IsUnused(raw, nodes);
  }

  lemma {:induction false} SlotsAre(raw: Bytes, p: Plan)
    requires DifatFits(p) && Packable(HeaderWords(p)) && Packable(HeadWords(p)) && |raw| == 512 * (p.Total() + 1)
    requires HasSlice(raw, 0, Header(p)) && HasSlice(raw, (p.DifatStart() + 1) * SECTOR, Join(DifatSectors(p)))
    ensures SlotsRight(raw, p)
  {
    DifatIsPlaced(raw, p);
    hide Header, HeadWords, HeaderWords, Words, DifatWords, Join, DifatSectors, SectorRight, SlotOf, Get32, HasSlice;
    forall k: nat | k < 109
      ensures Get32(raw, 76 + 4 * k) == SlotOf(p, k)
    {
      HeadSlots(raw, p, k);
    }
    forall i: nat | i < p.difat
      ensures SectorRight(raw, p, i)
    {
      SectorSlots(raw, p, i);
    }
  }

  lemma {:induction false} RecordsHold(nodes: seq<Entry>)
    ensures |nodes| <= 4 * PlanOf(nodes).dir
  {
    CeilDivBounds(128 * |nodes|, 512);
    hide Chained, Stored, FatCount, CeilDiv;
  }

  lemma {:induction false} MiniPlaced(raw: Bytes, nodes: seq<Entry>, links: seq<Link>)
    requires InRange(nodes, links) && Placed(raw, nodes, links, PlanOf(nodes))
    ensures var p := PlanOf(nodes);
            && Packable(MinifatWords(nodes, p)) && HasSlice(raw, 512 * (p.MinifatStart() + 1), Words(MinifatWords(nodes, p)))
            && HasSlice(raw, 512 * (p.MiniStart() + 1), Pad(Stored(nodes, 64), 512))
  {
    hide PlanOf, Stored, Records, Join, Words, FatWords, MinifatWords, Chained, Packable, DirectoryFits, Pad, HasSlice;
  }

  lemma {:induction false} MiniAre(raw: Bytes, nodes: seq<Entry>)
    requires var p := PlanOf(nodes);
             && Packable(MinifatWords(nodes, p)) && HasSlice(raw, 512 * (p.MinifatStart() + 1), Words(MinifatWords(nodes, p)))
             && HasSlice(raw, 512 * (p.MiniStart() + 1), Pad(Stored(nodes, 64), 512))
    ensures MiniRight(raw, PlanOf(nodes), |Chained(nodes, 64)|)
  {
    hide PlanOf, Stored, Words, MinifatWords, Chained, Packable, Pad, HasSlice, FreeWord;
    var p, used := PlanOf(nodes), |Chained(nodes, 64)|;
    MiniEnd(raw, nodes);
    forall s: nat | used <= s < 128 * p.minifat
      ensures FreeWord(raw, p.MinifatStart(), s)
    {
      MinifatFree(raw, nodes, s);
    }
  }

  lemma {:induction false} IsUnused(raw: Bytes, nodes: seq<Entry>)
    requires var p := PlanOf(nodes);
             && HeaderCounts(raw, p) && SlotsRight(raw, p) && MiniRight(raw, p, |Chained(nodes, 64)|) && |nodes| <= 4 * p.dir
             && forall s: nat :: |nodes| <= s < 4 * p.dir ==> EmptyAt(raw, 512 * (p.DirStart() + 1) + 128 * s)
    ensures UnusedRight(raw, nodes)
  {
    hide HeaderCounts, SlotsRight, MiniRight, EmptyAt, PlanOf, Chained;
  }
}
