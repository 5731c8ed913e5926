/** `read` of a written file: the volume it opens, and the bytes of every stream in it. */
module CfbOpen {
  import opened Base
  import opened CfbFormat
  import opened CfbAlloc
  import opened CfbEntry
  import opened CfbTree
  import opened CfbImage
  import opened CfbFields
  import opened CfbVolume
  import CfbRead

  /** What opening the image must find. */
  ghost function Opened(raw: Bytes, nodes: seq<Entry>, links: seq<Link>): CfbRead.Volume
    requires DirectoryFits(nodes, PlanOf(nodes), links)
  {
    var p := PlanOf(nodes);
    CfbRead.Volume(raw, SECTOR, 3, MINI_CUTOFF, FatWords(nodes, p), MinifatWords(nodes, p),
                   Stored(nodes, MINI_SECTOR), Records(nodes, p, links))
  }

  lemma {:induction false} RegionsInRange(p: Plan)
    requires p.Total() <= MAXREGSECT + 1
    ensures p.MiniStart() + p.mini <= MAXREGSECT + 1 && p.MinifatStart() + p.minifat <= MAXREGSECT + 1
    ensures p.DirStart() + p.dir <= MAXREGSECT + 1 && p.big <= MAXREGSECT + 1
  {
  }

  lemma {:induction false} HeaderFound(raw: Bytes, nodes: seq<Entry>, links: seq<Link>)
    requires InRange(nodes, links) && Placed(raw, nodes, links, PlanOf(nodes))
    ensures var p := PlanOf(nodes);
            && CfbRead.Header(raw) == Ok(SECTOR) && |raw| >= 512 && Get16(raw, 0x1A) == 3
            && Get32(raw, 0x30) == p.DirStart() && Get32(raw, 0x38) == MINI_CUTOFF
            && Get32(raw, 0x3C) == (if p.minifat > 0 then p.MinifatStart() else ENDOFCHAIN)
            && Get32(raw, 0x40) == p.minifat
  {
    hide PlanOf, Header, MinifatWords, FatWords, Stored, Records, Words, CfbRead.Header;
    var p := PlanOf(nodes);
    HeaderFields(raw, p);
    assert Get32(raw, 0x2C + 4 * 1) == HeaderWords(p)[1];
    assert Get32(raw, 0x2C + 4 * 3) == HeaderWords(p)[3];
    assert Get32(raw, 0x2C + 4 * 4) == HeaderWords(p)[4];
    assert Get32(raw, 0x2C + 4 * 5) == HeaderWords(p)[5];
  }

  lemma {:induction false} DirectoryFound(raw: Bytes, nodes: seq<Entry>, links: seq<Link>)
    requires InRange(nodes, links) && Placed(raw, nodes, links, PlanOf(nodes))
    ensures var p := PlanOf(nodes);
            && CfbRead.Regular(raw, SECTOR, FatWords(nodes, p), p.DirStart()) == Ok(Join(Records(nodes, p, links)))
            && Chop(Join(Records(nodes, p, links)), 128) == Records(nodes, p, links)
            && |nodes| <= |Records(nodes, p, links)|
  {
    hide PlanOf, Header, MinifatWords, FatWords, Stored, Words, Chained, Records, CfbRead.Regular;
    var p := PlanOf(nodes);
    RegionsInRange(p);
    RecordsSize(nodes, links);
    FatChains(nodes);
    RegularRow(raw, FatWords(nodes, p), p.DirStart(), p.dir, Join(Records(nodes, p, links)));
    ChopJoin(Records(nodes, p, links), 128);
  }

  lemma {:induction false} MiniFound(raw: Bytes, nodes: seq<Entry>, links: seq<Link>, record: Bytes)
    requires InRange(nodes, links) && Placed(raw, nodes, links, PlanOf(nodes)) && |record| == 128
    requires CfbRead.SizeOf(3, record) == |Stored(nodes, MINI_SECTOR)|
    requires Get32(record, 0x74) == if PlanOf(nodes).mini > 0 then PlanOf(nodes).MiniStart() else ENDOFCHAIN
    ensures CfbRead.MiniStream(raw, SECTOR, 3, FatWords(nodes, PlanOf(nodes)), record) == Ok(Stored(nodes, MINI_SECTOR))
  {
    hide PlanOf, Header, MinifatWords, FatWords, Stored, Words, Chained, Records, CfbRead.Regular, CfbRead.SizeOf;
    var p := PlanOf(nodes);
    var mini := Stored(nodes, MINI_SECTOR);
    if |mini| > 0 {
      RegionsInRange(p);
      FatChains(nodes);
      MiniCount(nodes);
      RegularRow(raw, FatWords(nodes, p), p.MiniStart(), p.mini, Pad(mini, SECTOR));
      assert Slice(Pad(mini, SECTOR), 0, |mini|) == mini;
    }
  }

  lemma {:induction false} MiniCount(nodes: seq<Entry>)
    ensures var mini := Stored(nodes, MINI_SECTOR);
            |Pad(mini, SECTOR)| == PlanOf(nodes).mini * SECTOR && (|mini| > 0 ==> PlanOf(nodes).mini > 0)
  {
    CeilDivBounds(|Stored(nodes, MINI_SECTOR)|, SECTOR);
  }

  lemma {:induction false} MinifatFound(raw: Bytes, nodes: seq<Entry>, links: seq<Link>)
    requires InRange(nodes, links) && Placed(raw, nodes, links, PlanOf(nodes)) && |raw| >= 512
    requires Get32(raw, 0x40) == PlanOf(nodes).minifat
    requires Get32(raw, 0x3C) == if PlanOf(nodes).minifat > 0 then PlanOf(nodes).MinifatStart() else ENDOFCHAIN
    ensures CfbRead.MiniFat(raw, SECTOR, FatWords(nodes, PlanOf(nodes))) == Ok(MinifatWords(nodes, PlanOf(nodes)))
  {
    hide PlanOf, Header, MinifatWords, FatWords, Stored, Words, WordsOf, Chained, Records, CfbRead.Regular;
    var p := PlanOf(nodes);
    MinifatSize(nodes);
    if p.minifat > 0 {
      RegionsInRange(p);
      FatChains(nodes);
      RegularRow(raw, FatWords(nodes, p), p.MinifatStart(), p.minifat, Words(MinifatWords(nodes, p)));
      WordsRoundTrip(MinifatWords(nodes, p));
    }
  }

  /** The record of every entry, in its place. */
  lemma {:induction false} RecordFound(nodes: seq<Entry>, links: seq<Link>, sid: nat)
    requires InRange(nodes, links) && sid < |nodes|
    ensures var p := PlanOf(nodes);
            && sid < |Records(nodes, p, links)|
            && RecordFits(nodes[sid], links[sid], StartOf(nodes, p, sid), SizeOf(nodes, sid))
            && Records(nodes, p, links)[sid]
                 == Record(nodes[sid], links[sid], StartOf(nodes, p, sid), SizeOf(nodes, sid))
  {
    hide PlanOf, Record, RecordFits, EmptyRecord;
  }

  lemma {:induction false} OpenStep(raw: Bytes, fat: seq<nat>, directory: Bytes, records: seq<Bytes>, mini: Bytes, minifat: seq<nat>)
    requires CfbRead.Header(raw) == Ok(SECTOR) && |raw| >= 512 && Get16(raw, 0x1A) == 3
    requires CfbRead.Fat(raw, SECTOR) == Ok(fat)
    requires CfbRead.Regular(raw, SECTOR, fat, Get32(raw, 0x30)) == Ok(directory)
    requires Chop(directory, 128) == records && records != []
    requires CfbRead.MiniStream(raw, SECTOR, 3, fat, records[0]) == Ok(mini)
    requires CfbRead.MiniFat(raw, SECTOR, fat) == Ok(minifat)
    ensures CfbRead.Open(raw) == Ok(CfbRead.Volume(raw, SECTOR, 3, Get32(raw, 0x38), fat, minifat, mini, records))
  {
    hide CfbRead.Header, CfbRead.Fat, CfbRead.Regular, CfbRead.MiniStream, CfbRead.MiniFat, Chop;
  }

  /** Opening a written file whose first entry is a root finds all its tables. */
  lemma {:induction false} OpenFinds(raw: Bytes, nodes: seq<Entry>, links: seq<Link>)
    requires InRange(nodes, links) && Placed(raw, nodes, links, PlanOf(nodes)) && nodes[0].kind == ROOT
    ensures CfbRead.Open(raw) == Ok(Opened(raw, nodes, links))
  {
    hide CfbRead.Open, CfbRead.Header, CfbRead.Fat, CfbRead.Regular, CfbRead.MiniStream, CfbRead.MiniFat, CfbRead.SizeOf,
         Chop, Join, PlanOf, Placed, Stored, Chained, FatWords, MinifatWords, Records, Record, RecordFits, Get32, Get16;
    var p := PlanOf(nodes);
    HeaderFound(raw, nodes, links);
    FatFound(raw, nodes, links);
    DirectoryFound(raw, nodes, links);
    RecordFound(nodes, links, 0);
    RecordStart(nodes[0], links[0], StartOf(nodes, p, 0), SizeOf(nodes, 0));
    MiniFound(raw, nodes, links, Records(nodes, p, links)[0]);
    MinifatFound(raw, nodes, links);
    OpenStep(raw, FatWords(nodes, p), Join(Records(nodes, p, links)), Records(nodes, p, links),
             Stored(nodes, MINI_SECTOR), MinifatWords(nodes, p));
  }

  // ---------------------------------------------------------------- streams

  lemma {:induction false} JoinMiniRow(mini: Bytes, first: nat, count: nat)
    requires (first + count) * 64 <= |mini|
    ensures CfbRead.JoinMini(mini, Range(first, count)) == mini[first * 64..(first + count) * 64]
    decreases count
  {
    hide *;
    if count > 0 {
      JoinMiniRow(mini, first + 1, count - 1);
      RangeStep(first, count);
      JoinMiniStep(mini, first, Range(first + 1, count - 1));
      JoinSlices(mini, first * 64, (first + 1) * 64, (first + count) * 64);
    } else {
      RangeEmpty(first);
      JoinMiniNone(mini);
    }
  }

  lemma {:induction false} JoinMiniStep(mini: Bytes, first: nat, rest: seq<nat>)
    requires (first + 1) * 64 <= |mini|
    ensures CfbRead.JoinMini(mini, [first] + rest) == mini[first * 64..(first + 1) * 64] + CfbRead.JoinMini(mini, rest)
  {
    assert ([first] + rest)[1..] == rest;
  }

  lemma {:induction false} JoinMiniNone(mini: Bytes)
    ensures CfbRead.JoinMini(mini, []) == []
  {
  }

  lemma {:induction false} MiniStreamFound(raw: Bytes, nodes: seq<Entry>, links: seq<Link>, sid: nat)
    requires InRange(nodes, links) && sid < |nodes| && KeptIn(nodes[sid], MINI_SECTOR)
    ensures Opened(raw, nodes, links).Valid()
    ensures CfbRead.ChainBytes(Opened(raw, nodes, links), |nodes[sid].data|, StartOf(nodes, PlanOf(nodes), sid))
         == Ok(Pad(nodes[sid].data, MINI_SECTOR))
  {
    hide PlanOf, Chained, Stored, Records, FatWords, Follow, Fits, Pad;
    var p, data := PlanOf(nodes), nodes[sid].data;
    var first, count := |Chained(nodes[..sid], MINI_SECTOR)|, CeilDiv(|data|, MINI_SECTOR);
    StreamAt(nodes, sid, MINI_SECTOR);
    StoredSize(nodes, MINI_SECTOR);
    SliceGrow(Chained(nodes, MINI_SECTOR),
              Fill(FREESECT, Less(PER_SECTOR * p.minifat, |Chained(nodes, MINI_SECTOR)|)), first, ChainWords(first, count));
    FollowChain(first, count, MinifatWords(nodes, p));
    assert count > 0;
    JoinMiniRow(Stored(nodes, MINI_SECTOR), first, count);
    assert first * MINI_SECTOR + count * MINI_SECTOR == (first + count) * MINI_SECTOR;
  }

  lemma {:induction false} BigStreamFound(raw: Bytes, nodes: seq<Entry>, links: seq<Link>, sid: nat)
    requires InRange(nodes, links) && Placed(raw, nodes, links, PlanOf(nodes))
    requires sid < |nodes| && KeptIn(nodes[sid], SECTOR)
    ensures Opened(raw, nodes, links).Valid()
    ensures CfbRead.ChainBytes(Opened(raw, nodes, links), |nodes[sid].data|, StartOf(nodes, PlanOf(nodes), sid))
         == Ok(Pad(nodes[sid].data, SECTOR))
  {
    hide PlanOf, Chained, Stored, Records, FatWords, MinifatWords, Header, Words, Fits, Pad, CfbRead.Regular;
    var p, data := PlanOf(nodes), nodes[sid].data;
    var first, count := |Chained(nodes[..sid], SECTOR)|, CeilDiv(|data|, SECTOR);
    StreamAt(nodes, sid, SECTOR);
    StoredSize(nodes, SECTOR);
    FatChains(nodes);
    RegionsInRange(p);
    SliceInside(FatWords(nodes, p), 0, Chained(nodes, SECTOR), first, ChainWords(first, count));
    SliceInside(raw, SECTOR, Stored(nodes, SECTOR), first * SECTOR, Pad(data, SECTOR));
    assert SECTOR + first * SECTOR == (first + 1) * SECTOR;
    RegularRow(raw, FatWords(nodes, p), first, count, Pad(data, SECTOR));
    assert count > 0;
  }

  /** Every stream below 4 GiB is read back. */
  lemma {:induction false} StreamFound(raw: Bytes, nodes: seq<Entry>, links: seq<Link>, sid: nat)
    requires InRange(nodes, links) && Placed(raw, nodes, links, PlanOf(nodes))
    requires sid < |nodes| && nodes[sid].kind == STREAM && |nodes[sid].data| <= MAX32
    ensures var v := Opened(raw, nodes, links);
            v.Valid() && sid < |v.records| && CfbRead.StreamData(v, v.records[sid]) == Ok(nodes[sid].data)
  {
    hide PlanOf, Chained, Stored, Records, Record, FatWords, MinifatWords, Placed, Words, Pad, CfbRead.ChainBytes, CfbRead.SizeOf;
    var p, data := PlanOf(nodes), nodes[sid].data;
    RecordFound(nodes, links, sid);
    RecordStart(nodes[sid], links[sid], StartOf(nodes, p, sid), SizeOf(nodes, sid));
    if KeptIn(nodes[sid], MINI_SECTOR) {
      MiniStreamFound(raw, nodes, links, sid);
      assert Pad(data, MINI_SECTOR)[..|data|] == data;
    } else if KeptIn(nodes[sid], SECTOR) {
      BigStreamFound(raw, nodes, links, sid);
      assert Pad(data, SECTOR)[..|data|] == data;
    }
  }
}
