/** `write`: the whole file (_cfb.py), and the round trip through `read`. */
module CfbFile {
  import opened Base
  import opened CfbFormat
  import opened CfbAlloc
  import opened CfbEntry
  import opened CfbTree
  import opened CfbImage
  import opened CfbVolume
  import opened CfbLinks
  import opened CfbDirectory
  import opened CfbLinking
  import opened CfbWrite
  import CfbBytes
  import CfbUnused
  import CfbRead
  import CfbRoundTrip

  /** The bytes of the large streams, each filled up to whole sectors. */
  method BigBody(nodes: seq<Entry>) returns (body: Bytes)
    ensures body == Stored(nodes, SECTOR)
  {
    hide Stored, Chained, Pad, Zeros;
    body := [];
    NothingStored(nodes, SECTOR);
    for n := 0 to |nodes|
      invariant body == Stored(nodes[..n], SECTOR)
    {
      StoredNext(nodes, n, SECTOR);
      if KeptIn(nodes[n], SECTOR) {
        var data := nodes[n].data;
        PadIs(data, SECTOR);
        body := body + (data + Zeros(SectorsFor(|data|) * SECTOR - |data|));
      }
    }
  }

  // ---------------------------------------------------------------- directory

  lemma {:induction false} StartIs(nodes: seq<Entry>, p: Plan, starts: map<nat, nat>, s: nat)
    requires s < |nodes| && nodes[s].kind == STREAM
    requires MiniStarts(nodes, starts, |nodes|) && BigStarts(nodes, starts, |nodes|)
    ensures s in starts && starts[s] == StartOf(nodes, p, s)
  {
    hide Chained;
  }

  /** Every record so far is the one the plan asks for. */
  ghost predicate RecordsUpto(nodes: seq<Entry>, p: Plan, links: seq<Link>, records: seq<Bytes>) {
    && |links| == |nodes| && |records| <= |nodes|
    && forall s :: 0 <= s < |records| ==>
         RecordFits(nodes[s], links[s], StartOf(nodes, p, s), SizeOf(nodes, s))
         && records[s] == Record(nodes[s], links[s], StartOf(nodes, p, s), SizeOf(nodes, s))
  }

  lemma {:induction false} RecordsGrow(nodes: seq<Entry>, p: Plan, links: seq<Link>, records: seq<Bytes>, record: Bytes)
    requires RecordsUpto(nodes, p, links, records) && |records| < |nodes|
    requires var s := |records|;
             RecordFits(nodes[s], links[s], StartOf(nodes, p, s), SizeOf(nodes, s))
             && record == Record(nodes[s], links[s], StartOf(nodes, p, s), SizeOf(nodes, s))
    ensures RecordsUpto(nodes, p, links, records + [record])
    ensures Join(records + [record]) == Join(records) + record
  {
    hide Record, RecordFits, StartOf, SizeOf, Join;
    JoinGrow(records, record);
  }

  lemma {:induction false} RecordsAll(nodes: seq<Entry>, p: Plan, links: seq<Link>, records: seq<Bytes>)
    requires RecordsUpto(nodes, p, links, records) && |records| == |nodes|
    ensures DirectoryFits(nodes, p, links) && AllOf(records, 128)
    ensures Records(nodes, p, links) == records + seq(Less(4 * p.dir, |nodes|), _ => EmptyRecord())
  {
    hide Record, RecordFits, StartOf, SizeOf, EmptyRecord;
  }

  lemma {:induction false} RecordsFail(nodes: seq<Entry>, p: Plan, links: seq<Link>, s: nat)
    requires s < |nodes| && |links| == |nodes| && !RecordFits(nodes[s], links[s], StartOf(nodes, p, s), SizeOf(nodes, s))
    ensures !DirectoryFits(nodes, p, links)
  {
    hide RecordFits, StartOf, SizeOf;
  }

  lemma {:induction false} SizeIs(nodes: seq<Entry>, p: Plan, s: nat)
    requires s < |nodes|
    ensures SizeOf(nodes, s) == (if nodes[s].kind == STREAM then |nodes[s].data|
                                 else if nodes[s].kind == ROOT then |Stored(nodes, MINI_SECTOR)| else 0)
    ensures nodes[s].kind == ROOT ==> StartOf(nodes, p, s) == if p.mini > 0 then p.MiniStart() else ENDOFCHAIN
    ensures nodes[s].kind != STREAM && nodes[s].kind != ROOT ==> StartOf(nodes, p, s) == 0
  {
    hide Stored;
  }

  /** One record per entry, then empty records to the end of the sector. */
  method Directory(nodes: seq<Entry>, p: Plan, links: seq<Link>, starts: map<nat, nat>, miniStart: nat, miniSize: nat)
    returns (r: Result<Bytes, CfbError>)
    requires |links| == |nodes| && MiniStarts(nodes, starts, |nodes|) && BigStarts(nodes, starts, |nodes|)
    requires miniSize == |Stored(nodes, MINI_SECTOR)| && (p.mini > 0 ==> miniStart == p.MiniStart())
    ensures r.Ok? <==> DirectoryFits(nodes, p, links)
    ensures r.Ok? ==> r.value == Join(Records(nodes, p, links))
    ensures r == Err(NameTooLong) ==> exists e :: e in nodes && |Encode(e.name)| > 62
  {
    hide Stored, Chained, Record, RecordFits, StartOf, SizeOf, EmptyRecord, MiniStarts, BigStarts, RecordsUpto,
         DirectoryFits, Records, Join, Encode;
    var directory: Bytes := [];
    ghost var records: seq<Bytes> := [];
    NoRecords(nodes, p, links);
    for sid := 0 to |nodes|
      invariant RecordsUpto(nodes, p, links, records) && |records| == sid && directory == Join(records)
    {
      var node := nodes[sid];
      if |Encode(node.name)| > 62 {
        assert node in nodes;
        LongName(node, links[sid], StartOf(nodes, p, sid), SizeOf(nodes, sid));
        RecordsFail(nodes, p, links, sid);
        return Err(NameTooLong);
      }
      var start: nat, size: nat;
      SizeIs(nodes, p, sid);
      if node.kind == STREAM {
        StartIs(nodes, p, starts, sid);
        start, size := starts[sid], |node.data|;
      } else if node.kind == ROOT {
        start, size := if p.mini > 0 then miniStart else ENDOFCHAIN, miniSize;
      } else {
        start, size := 0, 0;
      }
      if !RecordFits(node, links[sid], start, size) {
        RecordsFail(nodes, p, links, sid);
        return Err(OutOfRange);
      }
      var record := Record(node, links[sid], start, size);
      RecordsGrow(nodes, p, links, records, record);
      directory := directory + record;
      records := records + [record];
    }
    RecordsAll(nodes, p, links, records);
    directory := FillUp(directory, records, |nodes|, p.dir);
    return Ok(directory);
  }

  /** `while len(directory) < dir_count * _SECTOR: directory += empty`. */
  method FillUp(directory0: Bytes, ghost records: seq<Bytes>, n: nat, dir: nat) returns (directory: Bytes)
    requires directory0 == Join(records) && |records| == n && AllOf(records, 128)
    ensures directory == Join(records + seq(Less(4 * dir, n), _ => EmptyRecord()))
  {
    hide Join, EmptyRecord;
    directory := directory0;
    ghost var all := records;
    JoinLength(all, 128);
    while |directory| < dir * SECTOR
      invariant AllOf(all, 128) && directory == Join(all) && n <= |all| && |directory| == 128 * |all|
      invariant all == records + seq(|all| - n, _ => EmptyRecord()) && (|all| == n || |all| <= 4 * dir)
      decreases dir * SECTOR - |directory|
    {
      JoinGrow(all, EmptyRecord());
      directory := directory + EmptyRecord();
      all := all + [EmptyRecord()];
    }
    JoinLength(all, 128);
  }

  lemma {:induction false} NoRecords(nodes: seq<Entry>, p: Plan, links: seq<Link>)
    requires |links| == |nodes|
    ensures RecordsUpto(nodes, p, links, []) && Join<byte>([]) == []
  {
  }

  lemma {:induction false} LongName(e: Entry, link: Link, start: nat, size: nat)
    requires |Encode(e.name)| > 62
    ensures !RecordFits(e, link, start, size)
  {
  }

  // ---------------------------------------------------------------- DIFAT

  /** A stretch of the list of FAT sectors, filled up with free slots. */
  lemma {:induction false} SlotsArePart(p: Plan, k: nat, n: nat)
    ensures var part := Slice(Range(p.FatStart(), p.fat), k, k + n);
            |part| <= n && Slots(p, k, n) == part + Fill(FREESECT, n - |part|)
  {
    var all := Range(p.FatStart(), p.fat);
    var part := Slice(all, k, k + n);
    var m := |part|;
    assert m == if k + n <= p.fat then n else Less(p.fat, k);
    forall i | 0 <= i < n
      ensures Slots(p, k, n)[i] == (part + Fill(FREESECT, n - m))[i]
    {
      assert Slots(p, k, n)[i] == Slot(p, k + i);
      if i < m {
        assert part[i] == all[k + i] == p.FatStart() + (k + i);
      } else {
        assert (part + Fill(FREESECT, n - m))[i] == FREESECT;
      }
    }
  }

  lemma {:induction false} DifatFails(p: Plan, i: nat)
    requires i < p.difat && !Packable(DifatWords(p, i))
    ensures !DifatFits(p)
  {
  }

  ghost predicate SectorsUpto(p: Plan, sectors: seq<Bytes>) {
    |sectors| <= p.difat && forall i :: 0 <= i < |sectors| ==>
      Packable(DifatWords(p, i)) && sectors[i] == Words(DifatWords(p, i))
  }

  lemma {:induction false} SectorsAll(p: Plan, sectors: seq<Bytes>)
    requires SectorsUpto(p, sectors) && |sectors| == p.difat
    ensures DifatFits(p) && DifatSectors(p) == sectors
  {
    hide Words, DifatWords, Packable;
  }

  lemma {:induction false} SectorsGrow(p: Plan, sectors: seq<Bytes>, words: seq<nat>)
    requires SectorsUpto(p, sectors) && |sectors| < p.difat && words == DifatWords(p, |sectors|) && Packable(words)
    ensures SectorsUpto(p, sectors + [Words(words)])
  {
    hide Words, DifatWords, Packable;
    var more := sectors + [Words(words)];
    forall i | 0 <= i < |more|
      ensures Packable(DifatWords(p, i)) && more[i] == Words(DifatWords(p, i))
    {
      if i < |sectors| { assert more[i] == sectors[i]; }
    }
  }

  lemma {:induction false} NoSectors(p: Plan)
    ensures SectorsUpto(p, []) && Join<byte>([]) == []
  {
  }

  lemma {:induction false} DifatIs(p: Plan, i: nat)
    ensures DifatWords(p, i) == Slots(p, HEADER_DIFAT + i * PER_DIFAT, PER_DIFAT) + [NextDifat(p, i)]
    ensures NextDifat(p, i) == if i + 1 < p.difat then p.DifatStart() + i + 1 else ENDOFCHAIN
  {
  }

  /** The DIFAT sectors: 127 FAT sectors and the number of the next DIFAT sector in each. */
  method DifatBytes(p: Plan, fatSectors: seq<nat>) returns (r: Result<Bytes, CfbError>)
    requires fatSectors == Range(p.FatStart(), p.fat)
    ensures r.Ok? <==> DifatFits(p)
    ensures r.Ok? ==> r.value == Join(DifatSectors(p))
    ensures r.Err? ==> r.error == OutOfRange
  {
    hide Words, DifatWords, Packable, Slots, Join, DifatFits, SectorsUpto, DifatSectors, Range, Slice, Fill, NextDifat;
    var body: Bytes := [];
    ghost var sectors: seq<Bytes> := [];
    NoSectors(p);
    for i := 0 to p.difat
      invariant SectorsUpto(p, sectors) && |sectors| == i && body == Join(sectors)
    {
      SlotsArePart(p, HEADER_DIFAT + i * PER_DIFAT, PER_DIFAT);
      DifatIs(p, i);
      var chunk := Slice(fatSectors, HEADER_DIFAT + i * PER_DIFAT, HEADER_DIFAT + i * PER_DIFAT + PER_DIFAT);
      chunk := chunk + Fill(FREESECT, PER_DIFAT - |chunk|);
      var next: nat := if i + 1 < p.difat then p.DifatStart() + i + 1 else ENDOFCHAIN;
      var words: seq<nat> := chunk + [next];
      if !Packable(words) {
        DifatFails(p, i);
        return Err(OutOfRange);
      }
      SectorsGrow(p, sectors, words);
      JoinGrow(sectors, Words(words));
      body := body + Words(words);
      sectors := sectors + [Words(words)];
    }
    SectorsAll(p, sectors);
    return Ok(body);
  }

  // ---------------------------------------------------------------- what is well formed

  /** What the format asks of a tree: short names, 32-bit states, and sizes within the range of sector numbers. */
  ghost predicate WellFormed(root: Entry) {
    var nodes := Nodes([root]);
    && (forall s :: 0 <= s < |nodes| ==> |Encode(nodes[s].name)| <= 62 && nodes[s].state <= MAX32)
    && |nodes| <= CfbTree.NOSTREAM
    && PlanOf(nodes).Total() <= MAXREGSECT + 1
    && |Stored(nodes, MINI_SECTOR)| <= MAX32
  }

  lemma {:induction false} PackableJoin(a: seq<nat>, b: seq<nat>)
    requires Packable(a) && Packable(b)
    ensures Packable(a + b)
  {
  }

  lemma {:induction false} PackableParts(first: nat, count: nat, word: nat, n: nat)
    requires first + count <= MAX32 && word <= MAX32
    ensures Packable(ChainWords(first, count)) && Packable(Fill(word, n))
  {
  }

  lemma {:induction false} ChainedFits(nodes: seq<Entry>, unit: nat)
    requires unit > 0 && |Chained(nodes, unit)| <= MAX32
    ensures Packable(Chained(nodes, unit))
  {
    ChainedPackable(nodes, unit);
  }

  lemma {:induction false} TablesFit(nodes: seq<Entry>)
    requires PlanOf(nodes).Total() <= MAXREGSECT + 1 && |Stored(nodes, MINI_SECTOR)| <= MAX32
    ensures Packable(MinifatWords(nodes, PlanOf(nodes))) && Packable(FatWords(nodes, PlanOf(nodes)))
    ensures |Chained(nodes, MINI_SECTOR)| <= MAX32 && |Chained(nodes, SECTOR)| <= MAX32
  {
    hide PlanOf, Chained, Stored, Packable, ChainWords, Fill;
    var p := PlanOf(nodes);
    StoredSize(nodes, MINI_SECTOR);
    PlanParts(nodes);
    ChainedFits(nodes, MINI_SECTOR);
    ChainedFits(nodes, SECTOR);
    PackableParts(p.MiniStart(), p.mini, FREESECT, Less(PER_SECTOR * p.minifat, |Chained(nodes, MINI_SECTOR)|));
    PackableParts(p.MinifatStart(), p.minifat, FATSECT, p.fat);
    PackableParts(p.DirStart(), p.dir, DIFSECT, p.difat);
    PackableParts(0, 0, FREESECT, Less(PER_SECTOR * p.fat, p.Total()));
    var a, b := Chained(nodes, SECTOR), ChainWords(p.MiniStart(), p.mini);
    var c, d := ChainWords(p.MinifatStart(), p.minifat), ChainWords(p.DirStart(), p.dir);
    PackableJoin(Chained(nodes, MINI_SECTOR), Fill(FREESECT, Less(PER_SECTOR * p.minifat, |Chained(nodes, MINI_SECTOR)|)));
    PackableJoin(a, b);
    PackableJoin(a + b, c);
    PackableJoin(a + b + c, d);
    PackableJoin(a + b + c + d, Fill(FATSECT, p.fat));
    PackableJoin(a + b + c + d + Fill(FATSECT, p.fat), Fill(DIFSECT, p.difat));
    PackableJoin(a + b + c + d + Fill(FATSECT, p.fat) + Fill(DIFSECT, p.difat),
                 Fill(FREESECT, Less(PER_SECTOR * p.fat, p.Total())));
  }

  lemma {:induction false} SlotsFit(p: Plan, k: nat, n: nat)
    requires p.Total() <= MAXREGSECT + 1
    ensures Packable(Slots(p, k, n))
  {
    assert forall i :: k <= i ==> Slot(p, i) <= MAX32;
    forall i | 0 <= i < n
      ensures Slots(p, k, n)[i] <= MAX32
    {
      assert Slots(p, k, n)[i] == Slot(p, k + i);
    }
  }

  lemma {:induction false} HeaderFits(p: Plan)
    requires p.Total() <= MAXREGSECT + 1
    ensures Packable(HeaderWords(p)) && Packable(HeadWords(p)) && DifatFits(p)
  {
    hide DifatWords, NextDifat;
    forall i | 0 <= i < p.difat
      ensures Packable(DifatWords(p, i))
    {
      DifatIs(p, i);
      var next: seq<nat> := [NextDifat(p, i)];
      assert Packable(next);
      SlotsFit(p, HEADER_DIFAT + i * PER_DIFAT, PER_DIFAT);
      PackableJoin(Slots(p, HEADER_DIFAT + i * PER_DIFAT, PER_DIFAT), next);
    }
  }

  lemma {:induction false} StartFits(nodes: seq<Entry>, s: nat)
    requires s < |nodes| && PlanOf(nodes).Total() <= MAXREGSECT + 1 && |Stored(nodes, MINI_SECTOR)| <= MAX32
    ensures StartOf(nodes, PlanOf(nodes), s) <= MAX32
    ensures SizeOf(nodes, s) < 0x1_0000_0000_0000_0000
  {
    hide PlanOf, Chained, Stored;
    TablesFit(nodes);
    PlanParts(nodes);
    ChainedWithin(nodes, s, MINI_SECTOR);
    ChainedWithin(nodes, s, SECTOR);
    if KeptIn(nodes[s], SECTOR) {
      StreamAt(nodes, s, SECTOR);
      StoredSize(nodes, SECTOR);
    }
  }

  lemma {:induction false} WellFormedInRange(root: Entry, links: seq<Link>)
    requires WellFormed(root) && Bounded(links) && |links| == |Nodes([root])|
    ensures InRange(Nodes([root]), links)
  {
    hide PlanOf, Chained, Stored, MinifatWords, FatWords, HeaderWords, HeadWords, Packable, DifatFits, StartOf, SizeOf, Nodes,
         Encode;
    var nodes := Nodes([root]);
    CfbRoundTrip.RootNode(root);
    TablesFit(nodes);
    HeaderFits(PlanOf(nodes));
    forall s | 0 <= s < |nodes|
      ensures RecordFits(nodes[s], links[s], StartOf(nodes, PlanOf(nodes), s), SizeOf(nodes, s))
    {
      StartFits(nodes, s);
    }
  }

  // ---------------------------------------------------------------- write

  /** `write`: numbering, linking, placing, packing. A well-formed tree is written, its bytes are what the format asks for,
      and it is read back exactly if version 3 can represent it. */
  method Write(upper: string -> string, root: Entry) returns (r: Result<Bytes, CfbError>, ghost links: seq<Link>)
    ensures LinkedUp(upper, Nodes([root]), Kids([root], 0), links) && Bounded(links)
    ensures r.Ok? <==> Fits(Nodes([root]), PlanOf(Nodes([root])), links)
    ensures r.Ok? ==> r.value == Image(Nodes([root]), links)
    ensures r == Err(NameTooLong) ==> exists e :: e in Nodes([root]) && |Encode(e.name)| > 62
    ensures WellFormed(root) ==>
              && r.Ok? && CfbBytes.FileRight(r.value, Nodes([root]), links)
              && CfbUnused.UnusedRight(r.value, Nodes([root]))
    ensures WellFormed(root) ==>
              r.Ok? && (CfbRead.Read(r.value) == Ok(Normal(upper, root)) <==> root.kind == ROOT && Readable(root, 0))
  {
    hide *;
    var nodes: seq<Entry>, kids: seq<seq<nat>> := Number(root, [], []);
    assert [] + Nodes([root]) == Nodes([root]) && [] + Kids([root], 0) == Kids([root], 0);
    NumberedForest([root]);
    CfbRoundTrip.RootNode(root);
    var table := LinkAll(upper, nodes, kids);
    links := table[..];
    LinkCount(upper, nodes, kids, links);
    r := Pack(nodes, table[..]);
    if WellFormed(root) {
      WellFormedInRange(root, links);
      CfbRoundTrip.RoundTrip(root, links, upper);
      CfbBytes.WrittenRight(nodes, links);
      CfbUnused.UnusedIsRight(nodes, links);
    }
  }

  lemma {:induction false} LinkCount(upper: string -> string, nodes: seq<Entry>, kids: seq<seq<nat>>, links: seq<Link>)
    requires LinkedUp(upper, nodes, kids, links)
    ensures |links| == |nodes|
  {
  }

  lemma {:induction false} FitsIs(nodes: seq<Entry>, links: seq<Link>)
    ensures var p := PlanOf(nodes);
            Fits(nodes, p, links) <==>
              Packable(HeaderWords(p)) && Packable(HeadWords(p)) && Packable(MinifatWords(nodes, p))
              && Packable(FatWords(nodes, p)) && DirectoryFits(nodes, p, links) && DifatFits(p)
  {
  }

  /** The slots in the header, from the list of FAT sectors. */
  lemma {:induction false} HeadIs(p: Plan)
    ensures var part := Slice(Range(p.FatStart(), p.fat), 0, HEADER_DIFAT);
            |part| <= HEADER_DIFAT && HeadWords(p) == part + Fill(FREESECT, HEADER_DIFAT - |part|)
  {
    hide Slots, Slice, Range;
    SlotsArePart(p, 0, HEADER_DIFAT);
  }

  lemma {:induction false} HeaderWordsIs(p: Plan, dirStart: nat, minifatStart: nat)
    requires p.dir > 0 && dirStart == (if p.dir == 0 then ENDOFCHAIN else p.DirStart())
    requires minifatStart == (if p.minifat == 0 then ENDOFCHAIN else p.MinifatStart())
    ensures HeaderWords(p) == [p.fat, dirStart, 0, MINI_CUTOFF, if p.minifat > 0 then minifatStart else ENDOFCHAIN, p.minifat,
                               if p.difat > 0 then p.DifatStart() else ENDOFCHAIN, p.difat]
  {
  }

  lemma {:induction false} MinifatIs(nodes: seq<Entry>, p: Plan)
    requires p == PlanOf(nodes)
    ensures |Chained(nodes, MINI_SECTOR)| <= PER_SECTOR * p.minifat
    ensures MinifatWords(nodes, p)
              == Chained(nodes, MINI_SECTOR) + Fill(FREESECT, PER_SECTOR * p.minifat - |Chained(nodes, MINI_SECTOR)|)
  {
    MinifatSize(nodes);
  }

  lemma {:induction false} DirCount(nodes: seq<Entry>)
    requires nodes != []
    ensures PlanOf(nodes).dir > 0
  {
    hide Stored, Chained, FatCount;
    CeilDivBounds(128 * |nodes|, SECTOR);
  }

  lemma {:induction false} HeaderIs(p: Plan, headerWords: seq<nat>, headWords: seq<nat>)
    requires headerWords == HeaderWords(p) && headWords == HeadWords(p) && Packable(headerWords) && Packable(headWords)
    ensures Header(p) == (CfbRead.SIGNATURE + Zeros(16)) + (U16(0x3E) + U16(3) + U16(0xFFFE) + U16(9) + U16(6)) + Zeros(10)
                         + Words(headerWords) + Words(headWords)
  {
  }

  /** The parts of the file that are packed before and after the directory. */
  method Pack(nodes: seq<Entry>, links: seq<Link>) returns (r: Result<Bytes, CfbError>)
    requires nodes != [] && |links| == |nodes|
    ensures r.Ok? <==> Fits(nodes, PlanOf(nodes), links)
    ensures r.Ok? ==> r.value == Image(nodes, links)
    ensures r == Err(NameTooLong) ==> exists e :: e in nodes && |Encode(e.name)| > 62
  {
    hide *;
    SectorSizes();
    FitsIs(nodes, links);
    PlanParts(nodes);
    DirCount(nodes);
    var mini, minifat, starts := CollectMini(nodes);
    var big: nat := CountBig(nodes);
    var p := Sizes(nodes, big, |mini|, |minifat|);
    var fat, starts', miniStart: nat, minifatStart: nat, dirStart: nat := BuildFat(nodes, p, starts);
    var fatSectors := Range(p.FatStart(), p.fat);
    HeadIs(p);
    var headWords := Slice(fatSectors, 0, HEADER_DIFAT);
    headWords := headWords + Fill(FREESECT, HEADER_DIFAT - |headWords|);
    HeaderWordsIs(p, dirStart, minifatStart);
    var headerWords: seq<nat> :=
      [p.fat, dirStart, 0, MINI_CUTOFF, if p.minifat > 0 then minifatStart else ENDOFCHAIN, p.minifat,
       if p.difat > 0 then p.DifatStart() else ENDOFCHAIN, p.difat];
    if !Packable(headerWords) || !Packable(headWords) { return Err(OutOfRange); }
    HeaderIs(p, headerWords, headWords);
    MinifatIs(nodes, p);
    var minifatWords := minifat + Fill(FREESECT, PER_SECTOR * p.minifat - |minifat|);
    if !Packable(minifatWords) { return Err(OutOfRange); }
    var bigBody := BigBody(nodes);
    PadIs(mini, SECTOR);
    var directory := Directory(nodes, p, links, starts', miniStart, |mini|);
    if directory.Err? { return Err(directory.error); }
    if !Packable(fat[..]) { return Err(OutOfRange); }
    var difat := DifatBytes(p, fatSectors);
    if difat.Err? { return Err(OutOfRange); }
    ImageIs(nodes, links);
    return Ok((CfbRead.SIGNATURE + Zeros(16)) + (U16(0x3E) + U16(3) + U16(0xFFFE) + U16(9) + U16(6)) + Zeros(10)
              + Words(headerWords) + Words(headWords)
              + bigBody + Pad(mini, SECTOR) + Words(minifatWords) + directory.value + Words(fat[..]) + difat.value);
  }

  /** The counts of sectors, the FAT's own included. */
  method Sizes(nodes: seq<Entry>, big: nat, mini: nat, minifat: nat) returns (p: Plan)
    requires big == |Chained(nodes, SECTOR)| && mini == |Stored(nodes, MINI_SECTOR)| && minifat == |Chained(nodes, MINI_SECTOR)|
    ensures p == PlanOf(nodes)
  {
    hide Chained, Stored, FatCount;
    var miniCount, minifatCount, dirCount := SectorsFor(mini), SectorsFor(4 * minifat), SectorsFor(128 * |nodes|);
    var fat, difat := SizeFat(big + miniCount + minifatCount + dirCount);
    p := Plan(big, miniCount, minifatCount, dirCount, fat, difat);
  }
}
