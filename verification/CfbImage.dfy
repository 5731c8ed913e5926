/** The bytes of a version 3 compound file, region by region (_cfb.py `write`). */
module CfbImage {
  import opened Base
  import opened CfbFormat
  import opened CfbAlloc
  import opened CfbEntry
  import opened CfbTree
  import CfbRead

  type Bytes = seq<byte>

  const SECTOR: nat := 512
  const MINI_SECTOR: nat := 64
  const MINI_CUTOFF: nat := 4096

  lemma {:induction false} SectorSizes()
    ensures SECTOR == 512 && MINI_SECTOR == 64
  {
  }

  // ---------------------------------------------------------------- where streams are kept

  /** Streams below 4096 bytes live in mini sectors (64), larger ones in sectors (512); empty ones nowhere. */
  predicate KeptIn(e: Entry, unit: nat) {
    e.kind == STREAM && if unit == MINI_SECTOR then 0 < |e.data| < MINI_CUTOFF else MINI_CUTOFF <= |e.data|
  }

  /** The streams kept in units of `unit` bytes, each filled up to whole units. */
  function Stored(nodes: seq<Entry>, unit: nat): Bytes
    requires unit > 0
  {
    if nodes == [] then []
    else
      var n := |nodes| - 1;
      Stored(nodes[..n], unit) + if KeptIn(nodes[n], unit) then Pad(nodes[n].data, unit) else []
  }

  /** Their allocation table: one chain per stream, in a row. */
  function Chained(nodes: seq<Entry>, unit: nat): seq<nat>
    requires unit > 0
  {
    if nodes == [] then []
    else
      var n := |nodes| - 1;
      var table := Chained(nodes[..n], unit);
      table + if KeptIn(nodes[n], unit) then ChainWords(|table|, CeilDiv(|nodes[n].data|, unit)) else []
  }

  // ---------------------------------------------------------------- the plan

  /** How many sectors each region takes; the regions follow one another in this order. */
  datatype Plan = Plan(big: nat, mini: nat, minifat: nat, dir: nat, fat: nat, difat: nat) {
    function MiniStart(): nat { big }
    function MinifatStart(): nat { big + mini }
    function DirStart(): nat { big + mini + minifat }
    function FatStart(): nat { big + mini + minifat + dir }
    function DifatStart(): nat { FatStart() + fat }
    function Total(): nat { FatStart() + fat + difat }
  }

  function SectorsFor(size: nat): nat {
    CeilDiv(size, SECTOR)
  }

  function DataCount(nodes: seq<Entry>): nat {
    |Chained(nodes, SECTOR)| + SectorsFor(|Stored(nodes, MINI_SECTOR)|)
    + SectorsFor(4 * |Chained(nodes, MINI_SECTOR)|) + SectorsFor(128 * |nodes|)
  }

  function PlanOf(nodes: seq<Entry>): Plan {
    var data := DataCount(nodes);
    var fat := FatCount(data, 0);
    Plan(|Chained(nodes, SECTOR)|, SectorsFor(|Stored(nodes, MINI_SECTOR)|),
         SectorsFor(4 * |Chained(nodes, MINI_SECTOR)|), SectorsFor(128 * |nodes|), fat, NeedDifat(fat))
  }

  lemma {:induction false} PlanSuffices(nodes: seq<Entry>)
    ensures var p := PlanOf(nodes);
            && p.Total() <= PER_SECTOR * p.fat && p.fat <= HEADER_DIFAT + PER_DIFAT * p.difat
            && (p.difat > 0 ==> HEADER_DIFAT + PER_DIFAT * (p.difat - 1) < p.fat)
  {
    FatCountIsLeast(DataCount(nodes), 0);
  }

  // ---------------------------------------------------------------- tables

  /** The file allocation table. */
  function FatWords(nodes: seq<Entry>, p: Plan): seq<nat> {
    Chained(nodes, SECTOR) + ChainWords(p.MiniStart(), p.mini) + ChainWords(p.MinifatStart(), p.minifat)
    + ChainWords(p.DirStart(), p.dir) + Fill(FATSECT, p.fat) + Fill(DIFSECT, p.difat)
    + Fill(FREESECT, Less(PER_SECTOR * p.fat, p.Total()))
  }

  function Less(a: nat, b: nat): nat { if a < b then 0 else a - b }

  function MinifatWords(nodes: seq<Entry>, p: Plan): seq<nat> {
    Chained(nodes, MINI_SECTOR) + Fill(FREESECT, Less(PER_SECTOR * p.minifat, |Chained(nodes, MINI_SECTOR)|))
  }

  /** The FAT sector that a slot of the DIFAT lists. */
  function Slot(p: Plan, k: nat): nat {
    if k < p.fat then p.FatStart() + k else FREESECT
  }

  /** `n` slots of the DIFAT from slot `k` on. */
  function Slots(p: Plan, k: nat, n: nat): (words: seq<nat>)
    ensures |words| == n
  {
    seq<nat>(n, i requires 0 <= i < n => Slot(p, k + i))
  }

  /** The slots in the header. */
  function HeadWords(p: Plan): (words: seq<nat>)
    ensures |words| == HEADER_DIFAT
  {
    Slots(p, 0, HEADER_DIFAT)
  }

  function NextDifat(p: Plan, i: nat): nat {
    if i + 1 < p.difat then p.DifatStart() + i + 1 else ENDOFCHAIN
  }

  /** DIFAT sector `i`: 127 slots and the number of the next one. */
  function DifatWords(p: Plan, i: nat): (words: seq<nat>)
    ensures |words| == PER_SECTOR
  {
    var next: seq<nat> := [NextDifat(p, i)];
    Slots(p, HEADER_DIFAT + i * PER_DIFAT, PER_DIFAT) + next
  }

  // ---------------------------------------------------------------- directory

  function StartOf(nodes: seq<Entry>, p: Plan, sid: nat): nat
    requires sid < |nodes|
  {
    var e := nodes[sid];
    if e.kind == STREAM then
      if e.data == [] then ENDOFCHAIN
      else if |e.data| < MINI_CUTOFF then |Chained(nodes[..sid], MINI_SECTOR)|
      else |Chained(nodes[..sid], SECTOR)|
    else if e.kind == ROOT then (if p.mini > 0 then p.MiniStart() else ENDOFCHAIN)
    else 0
  }

  function SizeOf(nodes: seq<Entry>, sid: nat): nat
    requires sid < |nodes|
  {
    var e := nodes[sid];
    if e.kind == STREAM then |e.data| else if e.kind == ROOT then |Stored(nodes, MINI_SECTOR)| else 0
  }

  predicate RecordFits(e: Entry, link: Link, start: nat, size: nat) {
    && |Encode(e.name)| <= 62 && e.state <= MAX32 && link.color < 0x100
    && link.left <= MAX32 && link.right <= MAX32 && link.child <= MAX32
    && start <= MAX32 && size < 0x1_0000_0000_0000_0000
  }

  /** One 128-byte directory record. */
  function Record(e: Entry, link: Link, start: nat, size: nat): (record: Bytes)
    requires RecordFits(e, link, start, size)
    ensures |record| == 128
  {
    var name := Encode(e.name);
    (name + Zeros(64 - |name|))
    + (U16(|name| + 2) + [e.kind, link.color])
    + (U32(link.left) + U32(link.right) + U32(link.child))
    + (Fit(e.clsid, 16) + U32(e.state))
    + (Fit(if e.kind == STREAM then [] else e.created, 8) + Fit(if e.kind == STREAM then [] else e.modified, 8))
    + (U32(start) + U64(size))
  }

  /** A record no entry uses. */
  function EmptyRecord(): (record: Bytes)
    ensures |record| == 128
  {
    Zeros(0x44) + (U32(NOSTREAM) + U32(NOSTREAM) + U32(NOSTREAM)) + Zeros(0x30)
  }

  ghost predicate DirectoryFits(nodes: seq<Entry>, p: Plan, links: seq<Link>) {
    |links| == |nodes|
    && forall sid :: 0 <= sid < |nodes| ==> RecordFits(nodes[sid], links[sid], StartOf(nodes, p, sid), SizeOf(nodes, sid))
  }

  function Records(nodes: seq<Entry>, p: Plan, links: seq<Link>): (records: seq<Bytes>)
    requires DirectoryFits(nodes, p, links)
    ensures AllOf(records, 128)
  {
    seq(|nodes|, sid requires 0 <= sid < |nodes| =>
      Record(nodes[sid], links[sid], StartOf(nodes, p, sid), SizeOf(nodes, sid)))
    + seq(Less(4 * p.dir, |nodes|), _ => EmptyRecord())
  }

  // ---------------------------------------------------------------- the file

  /** The eight words at 0x2C: counts and first sectors of FAT, directory, mini FAT and DIFAT. */
  function HeaderWords(p: Plan): (words: seq<nat>)
    ensures |words| == 8
  {
    [p.fat, p.DirStart(), 0, MINI_CUTOFF, if p.minifat > 0 then p.MinifatStart() else ENDOFCHAIN, p.minifat,
     if p.difat > 0 then p.DifatStart() else ENDOFCHAIN, p.difat]
  }

  /** Everything that is packed fits its field; packing anything else is an error. */
  ghost predicate Fits(nodes: seq<Entry>, p: Plan, links: seq<Link>) {
    && Packable(HeaderWords(p)) && Packable(HeadWords(p))
    && Packable(MinifatWords(nodes, p)) && Packable(FatWords(nodes, p))
    && DirectoryFits(nodes, p, links)
    && DifatFits(p)
  }

  ghost predicate DifatFits(p: Plan) {
    forall i :: 0 <= i < p.difat ==> Packable(DifatWords(p, i))
  }

  function Header(p: Plan): (header: Bytes)
    requires Packable(HeaderWords(p)) && Packable(HeadWords(p))
    ensures |header| == 512
  {
    (CfbRead.SIGNATURE + Zeros(16)) + (U16(0x3E) + U16(3) + U16(0xFFFE) + U16(9) + U16(6)) + Zeros(10)
    + Words(HeaderWords(p)) + Words(HeadWords(p))
  }

  function DifatSectors(p: Plan): (sectors: seq<Bytes>)
    requires DifatFits(p)
    ensures |sectors| == p.difat && AllOf(sectors, SECTOR)
  {
    seq(p.difat, i requires 0 <= i < p.difat => Words(DifatWords(p, i)))
  }

  /** Header and regions, in file order. */
  ghost function Image(nodes: seq<Entry>, links: seq<Link>): Bytes
    requires Fits(nodes, PlanOf(nodes), links)
  {
    var p := PlanOf(nodes);
    Header(p)
    + Stored(nodes, SECTOR)
    + Pad(Stored(nodes, MINI_SECTOR), SECTOR)
    + Words(MinifatWords(nodes, p))
    + Join(Records(nodes, p, links))
    + Words(FatWords(nodes, p))
    + Join(DifatSectors(p))
  }

  // ---------------------------------------------------------------- facts about stored streams

  /** What the last entry adds. */
  lemma {:induction false} StoredStep(nodes: seq<Entry>, unit: nat)
    requires unit > 0 && nodes != []
    ensures var n := |nodes| - 1;
            var e, table := nodes[n], Chained(nodes[..n], unit);
            if KeptIn(e, unit) then
              && Stored(nodes, unit) == Stored(nodes[..n], unit) + Pad(e.data, unit)
              && Chained(nodes, unit) == table + ChainWords(|table|, CeilDiv(|e.data|, unit))
            else Stored(nodes, unit) == Stored(nodes[..n], unit) && Chained(nodes, unit) == table
  {
    assert Stored(nodes[..|nodes| - 1], unit) + [] == Stored(nodes[..|nodes| - 1], unit);
  }

  /** The table has one entry per unit of data. */
  lemma {:induction false} StoredSize(nodes: seq<Entry>, unit: nat)
    requires unit > 0
    ensures |Stored(nodes, unit)| == |Chained(nodes, unit)| * unit
    ensures nodes == [] ==> |Chained(nodes, unit)| == 0
  {
    if nodes != [] {
      hide *;
      var n := |nodes| - 1;
      StoredStep(nodes, unit);
      StoredSize(nodes[..n], unit);
      Distribute(|Chained(nodes[..n], unit)|, CeilDiv(|nodes[n].data|, unit), unit);
    }
  }

  lemma {:induction false} Distribute(a: nat, b: nat, unit: nat)
    ensures (a + b) * unit == a * unit + b * unit
  {
  }

  /** Every kept stream lies in a row of units, chained in that row. */
  lemma {:induction false} StreamAt(nodes: seq<Entry>, sid: nat, unit: nat)
    requires unit > 0 && sid < |nodes| && KeptIn(nodes[sid], unit)
    ensures var first, count := |Chained(nodes[..sid], unit)|, CeilDiv(|nodes[sid].data|, unit);
            && HasSlice(Chained(nodes, unit), first, ChainWords(first, count))
            && HasSlice(Stored(nodes, unit), first * unit, Pad(nodes[sid].data, unit))
  {
    hide *;
    var n := |nodes| - 1;
    var shorter := nodes[..n];
    StoredSize(shorter, unit);
    StoredStep(nodes, unit);
    var first, count := |Chained(nodes[..sid], unit)|, CeilDiv(|nodes[sid].data|, unit);
    if sid < n {
      StreamAt(shorter, sid, unit);
      assert shorter[..sid] == nodes[..sid];
      if KeptIn(nodes[n], unit) {
        SliceGrow(Chained(shorter, unit), ChainWords(|Chained(shorter, unit)|, CeilDiv(|nodes[n].data|, unit)),
                  first, ChainWords(first, count));
        SliceGrow(Stored(shorter, unit), Pad(nodes[n].data, unit), first * unit, Pad(nodes[sid].data, unit));
      }
    } else {
      SliceEnd(Chained(shorter, unit), ChainWords(first, count));
      SliceEnd(Stored(shorter, unit), Pad(nodes[sid].data, unit));
    }
  }

  /** No table entry is too large for its field unless the table itself is. */
  lemma {:induction false} ChainedPackable(nodes: seq<Entry>, unit: nat)
    requires unit > 0
    ensures forall i :: 0 <= i < |Chained(nodes, unit)| ==>
              Chained(nodes, unit)[i] == ENDOFCHAIN || Chained(nodes, unit)[i] < |Chained(nodes, unit)|
  {
    if nodes != [] {
      ChainedPackable(nodes[..|nodes| - 1], unit);
    }
  }
}
