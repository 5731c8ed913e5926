/** Reading a compound file (_cfb.py `read`). */
module CfbRead {
  import opened Base
  import opened CfbFormat
  import opened CfbAlloc
  import opened CfbEntry

  type Bytes = seq<byte>
  type Outcome<T> = Result<T, CfbError>

  const SIGNATURE: Bytes := [0xD0, 0xCF, 0x11, 0xE0, 0xA1, 0xB1, 0x1A, 0xE1]
  const MINI_SECTOR: nat := 64
  const NOSTREAM: nat := 0xFFFF_FFFF

  // ---------------------------------------------------------------- sectors

  ghost predicate SectorSize(sector: nat) { sector == 512 || sector == 4096 }

  /** How many sectors follow the header; negative when not even the header is whole. */
  function SectorCount(raw: Bytes, sector: nat): int
    requires SectorSize(sector)
  {
    (|raw| - sector) / sector
  }

  lemma {:induction false} SectorInside(raw: Bytes, sector: nat, index: nat)
    requires SectorSize(sector)
    ensures index < SectorCount(raw, sector) <==> (index + 2) * sector <= |raw|
    ensures (index + 2) * sector == (index + 1) * sector + sector
  {
    assert sector == 512 || sector == 4096;
  }

  /** `sector_bytes`. */
  function SectorBytes(raw: Bytes, sector: nat, index: nat): (r: Outcome<Bytes>)
    requires SectorSize(sector)
    ensures r.Ok? ==> |r.value| == sector && index < SectorCount(raw, sector)
  {
    SectorInside(raw, sector, index);
    if index >= SectorCount(raw, sector) then Err(OutsideFile)
    else Ok(raw[(index + 1) * sector..(index + 2) * sector])
  }

  /** `b"".join(sector_bytes(s) for s in sectors)`. */
  function JoinSectors(raw: Bytes, sector: nat, sectors: seq<nat>): Outcome<Bytes>
    requires SectorSize(sector)
  {
    if sectors == [] then Ok([])
    else match SectorBytes(raw, sector, sectors[0])
      case Err(e) => Err(e)
      case Ok(bytes) =>
        match JoinSectors(raw, sector, sectors[1..])
        case Err(e) => Err(e)
        case Ok(more) => Ok(bytes + more)
  }

  // ---------------------------------------------------------------- the FAT

  /** The values that are sector numbers. */
  function RegularOnly(words: seq<nat>): seq<nat> {
    if words == [] then []
    else (if words[0] <= MAXREGSECT then [words[0]] else []) + RegularOnly(words[1..])
  }

  /** FAT sectors listed in the DIFAT sectors from `difat` on. */
  function DifatFat(raw: Bytes, sector: nat, difat: nat, seen: set<nat>): Outcome<seq<nat>>
    requires SectorSize(sector)
    decreases Upto(if SectorCount(raw, sector) < 0 then 0 else SectorCount(raw, sector)) - seen
  {
    if difat > MAXREGSECT then Ok([])
    else if difat in seen then Err(DifatLoop)
    else match SectorBytes(raw, sector, difat)
      case Err(e) => Err(e)
      case Ok(bytes) =>
        var values := WordsOf(bytes);
        var last := |values| - 1;
        match DifatFat(raw, sector, values[last], seen + {difat})
        case Err(e) => Err(e)
        case Ok(more) => Ok(RegularOnly(values[..last]) + more)
  }

  /** `values = struct.unpack_from("<109I", raw, 0x4C)`. */
  function HeaderFat(raw: Bytes): seq<nat>
    requires |raw| >= 512
  {
    RegularOnly(WordsOf(raw[0x4C..0x200]))
  }

  function Before<T>(out: seq<T>, rest: Outcome<seq<T>>): Outcome<seq<T>> {
    match rest case Ok(more) => Ok(out + more) case Err(e) => Err(e)
  }

  lemma {:induction false} BeforeJoin<T>(out: seq<T>, x: seq<T>, rest: Outcome<seq<T>>)
    ensures Before(out, Before(x, rest)) == Before(out + x, rest)
    ensures Before([], rest) == rest
    ensures Before(out, Ok([])) == Ok(out)
  {
    if rest.Ok? {
      Assoc(out, x, rest.value);
      assert [] + rest.value == rest.value;
    }
    assert out + [] == out;
  }

  /** The loop over the DIFAT sectors, which also notices a ring. */
  method CollectFatSectors(raw: Bytes, sector: nat) returns (r: Outcome<seq<nat>>)
    requires |raw| >= 512 && SectorSize(sector)
    ensures r == Before(HeaderFat(raw), DifatFat(raw, sector, Get32(raw, 0x44), {}))
  {
    var fatSectors := HeaderFat(raw);
    var difat: nat, seen: set<nat> := Get32(raw, 0x44), {};
    while difat <= MAXREGSECT
      invariant Before(HeaderFat(raw), DifatFat(raw, sector, Get32(raw, 0x44), {}))
             == Before(fatSectors, DifatFat(raw, sector, difat, seen))
      decreases Upto(if SectorCount(raw, sector) < 0 then 0 else SectorCount(raw, sector)) - seen
    {
      if difat in seen { return Err(DifatLoop); }
      var bytes := SectorBytes(raw, sector, difat);
      if bytes.Err? { return Err(bytes.error); }
      var values := WordsOf(bytes.value);
      var last := |values| - 1;
      ghost var rest := DifatFat(raw, sector, values[last], seen + {difat});
      assert DifatFat(raw, sector, difat, seen) == Before(RegularOnly(values[..last]), rest);
      BeforeJoin(fatSectors, RegularOnly(values[..last]), rest);
      seen := seen + {difat};
      fatSectors := fatSectors + RegularOnly(values[..last]);
      difat := values[last];
    }
    BeforeJoin(fatSectors, [], Ok([]));
    return Ok(fatSectors);
  }

  /** `regular`: the bytes of a chain of sectors. */
  function Regular(raw: Bytes, sector: nat, fat: seq<nat>, start: nat): Outcome<Bytes>
    requires SectorSize(sector)
  {
    match Follow(start, fat, {})
    case None => Err(BrokenChain)
    case Some(sectors) => JoinSectors(raw, sector, sectors)
  }

  // ---------------------------------------------------------------- the open file

  datatype Volume = Volume(raw: Bytes, sector: nat, major: nat, cutoff: nat,
                           fat: seq<nat>, minifat: seq<nat>, mini: Bytes, records: seq<Bytes>)
  {
    ghost predicate Valid() { SectorSize(sector) && AllOf(records, 128) }
  }

  /** Version 3 keeps only the low half of a size. */
  function SizeOf(major: nat, record: Bytes): (n: nat)
    requires |record| == 128
    ensures major == 3 ==> n <= MAX32
  {
    if major == 3 then Get32(record, 0x78) else Get32(record, 0x7C) * 0x1_0000_0000 + Get32(record, 0x78)
  }

  function Header(raw: Bytes): (r: Outcome<nat>)
    ensures r.Ok? ==> |raw| >= 512 && SectorSize(r.value)
  {
    if |raw| < 512 || raw[..8] != SIGNATURE then Err(NotCompound)
    else
      var shift := Get16(raw, 0x1E);
      if Get16(raw, 0x1C) != 0xFFFE || (shift != 9 && shift != 12) || Get16(raw, 0x20) != 6 then Err(BadHeader)
      else Ok(if shift == 9 then 512 else 4096)
  }

  function Fat(raw: Bytes, sector: nat): Outcome<seq<nat>>
    requires |raw| >= 512 && SectorSize(sector)
  {
    match Before(HeaderFat(raw), DifatFat(raw, sector, Get32(raw, 0x44), {}))
    case Err(e) => Err(e)
    case Ok(sectors) =>
      match JoinSectors(raw, sector, sectors)
      case Err(e) => Err(e)
      case Ok(bytes) => Ok(WordsOf(bytes))
  }

  function MiniStream(raw: Bytes, sector: nat, major: nat, fat: seq<nat>, root: Bytes): Outcome<Bytes>
    requires SectorSize(sector) && |root| == 128
  {
    if SizeOf(major, root) == 0 then Ok([])
    else match Regular(raw, sector, fat, Get32(root, 0x74))
      case Err(e) => Err(e)
      case Ok(bytes) => Ok(Slice(bytes, 0, SizeOf(major, root)))
  }

  function MiniFat(raw: Bytes, sector: nat, fat: seq<nat>): Outcome<seq<nat>>
    requires |raw| >= 512 && SectorSize(sector)
  {
    if Get32(raw, 0x40) == 0 then Ok([])
    else match Regular(raw, sector, fat, Get32(raw, 0x3C))
      case Err(e) => Err(e)
      case Ok(bytes) => Ok(WordsOf(bytes))
  }

  /** The first half of `read`: header, tables, directory records, mini stream. */
  function Open(raw: Bytes): (r: Outcome<Volume>)
    ensures r.Ok? ==> r.value.Valid() && r.value.records != []
  {
    match Header(raw)
    case Err(e) => Err(e)
    case Ok(sector) =>
      match Fat(raw, sector)
      case Err(e) => Err(e)
      case Ok(fat) =>
        match Regular(raw, sector, fat, Get32(raw, 0x30))
        case Err(e) => Err(e)
        case Ok(directory) =>
          var records := Chop(directory, 128);
          var major := Get16(raw, 0x1A);
          if records == [] then Err(NoDirectory)
          else match MiniStream(raw, sector, major, fat, records[0])
            case Err(e) => Err(e)
            case Ok(mini) =>
              match MiniFat(raw, sector, fat)
              case Err(e) => Err(e)
              case Ok(minifat) => Ok(Volume(raw, sector, major, Get32(raw, 0x38), fat, minifat, mini, records))
  }

  // ---------------------------------------------------------------- streams

  /** The mini sectors of a chain, joined. */
  function JoinMini(mini: Bytes, sectors: seq<nat>): Bytes {
    if sectors == [] then []
    else Slice(mini, sectors[0] * MINI_SECTOR, (sectors[0] + 1) * MINI_SECTOR) + JoinMini(mini, sectors[1..])
  }

  function ChainBytes(v: Volume, size: nat, start: nat): Outcome<Bytes>
    requires v.Valid()
  {
    if size < v.cutoff then
      match Follow(start, v.minifat, {})
      case None => Err(BrokenChain)
      case Some(sectors) => Ok(JoinMini(v.mini, sectors))
    else Regular(v.raw, v.sector, v.fat, start)
  }

  /** `stream_data`. */
  function StreamData(v: Volume, record: Bytes): (r: Outcome<Bytes>)
    requires v.Valid() && |record| == 128
    ensures r.Ok? ==> |r.value| == SizeOf(v.major, record)
  {
    var size := SizeOf(v.major, record);
    if size == 0 then Ok([])
    else match ChainBytes(v, size, Get32(record, 0x74))
      case Err(e) => Err(e)
      case Ok(data) => if |data| < size then Err(TruncatedStream) else Ok(data[..size])
  }

  // ---------------------------------------------------------------- which bytes a stream is

  /** The chain that holds a stream. */
  function StreamChain(v: Volume, record: Bytes): Option<seq<nat>>
    requires |record| == 128
  {
    Follow(Get32(record, 0x74), if SizeOf(v.major, record) < v.cutoff then v.minifat else v.fat, {})
  }

  lemma {:induction false} OneLess(i: nat, unit: nat)
    requires unit == MINI_SECTOR || SectorSize(unit)
    ensures i < unit ==> i / unit == 0 && i % unit == i
    ensures i >= unit ==> (i - unit) / unit == i / unit - 1 && (i - unit) % unit == i % unit && i / unit >= 1
  {
    assert unit == 64 || unit == 512 || unit == 4096;
  }

  /** The joined sectors, byte by byte. */
  lemma {:induction false} JoinedByte(raw: Bytes, sector: nat, sectors: seq<nat>, i: nat)
    requires SectorSize(sector) && JoinSectors(raw, sector, sectors).Ok? && i < |JoinSectors(raw, sector, sectors).value|
    ensures var k := i / sector;
            && k < |sectors| && (sectors[k] + 1) * sector + i % sector < |raw|
            && JoinSectors(raw, sector, sectors).value[i] == raw[(sectors[k] + 1) * sector + i % sector]
    decreases |sectors|
  {
    OneLess(i, sector);
    SectorInside(raw, sector, sectors[0]);
    if i >= sector { JoinedByte(raw, sector, sectors[1..], i - sector); }
  }

  /** Every mini sector of the chain, except perhaps the last, lies inside the mini stream. */
  ghost predicate MiniWhole(mini: Bytes, sectors: seq<nat>) {
    forall k :: 0 <= k < |sectors| - 1 ==> (sectors[k] + 1) * MINI_SECTOR <= |mini|
  }

  lemma {:induction false} JoinedMiniByte(mini: Bytes, sectors: seq<nat>, k: nat, r: nat)
    requires MiniWhole(mini, sectors) && r < MINI_SECTOR && k * MINI_SECTOR + r < |JoinMini(mini, sectors)|
    ensures k < |sectors| && sectors[k] * MINI_SECTOR + r < |mini|
    ensures JoinMini(mini, sectors)[k * MINI_SECTOR + r] == mini[sectors[k] * MINI_SECTOR + r]
    decreases k
  {
    hide *;
    JoinMiniNext(mini, sectors);
    var s := sectors[0];
    var first, rest := Slice(mini, s * MINI_SECTOR, (s + 1) * MINI_SECTOR), JoinMini(mini, sectors[1..]);
    MiniRest(mini, sectors);
    FirstMini(mini, s);
    MiniPlace(k, r);
    if k == 0 {
      InFirst(first, rest, r);
    } else {
      var at: nat := (k - 1) * MINI_SECTOR + r;
      JoinedMiniByte(mini, sectors[1..], k - 1, r);
      InRest(first, rest, at);
    }
  }

  lemma {:induction false} MiniPlace(k: nat, r: nat)
    ensures k == 0 ==> k * MINI_SECTOR + r == r
    ensures k > 0 ==> (k - 1) * MINI_SECTOR + r >= 0 && k * MINI_SECTOR + r == MINI_SECTOR + ((k - 1) * MINI_SECTOR + r)
  {
  }

  lemma {:induction false} InFirst(first: Bytes, rest: Bytes, r: nat)
    requires r < |first + rest| && (r < |first| || rest == [])
    ensures r < |first| && (first + rest)[r] == first[r]
  {
  }

  lemma {:induction false} InRest(first: Bytes, rest: Bytes, at: nat)
    requires at < |rest|
    ensures (first + rest)[|first| + at] == rest[at]
  {
  }

  lemma {:induction false} MiniRest(mini: Bytes, sectors: seq<nat>)
    requires MiniWhole(mini, sectors)
    ensures sectors != [] ==> MiniWhole(mini, sectors[1..])
    ensures |sectors| > 1 ==> (sectors[0] + 1) * MINI_SECTOR <= |mini|
  {
  }

  lemma {:induction false} JoinMiniNext(mini: Bytes, sectors: seq<nat>)
    ensures sectors == [] ==> JoinMini(mini, sectors) == []
    ensures sectors != [] ==>
              var first := Slice(mini, sectors[0] * MINI_SECTOR, (sectors[0] + 1) * MINI_SECTOR);
              JoinMini(mini, sectors) == first + JoinMini(mini, sectors[1..])
    ensures |sectors| == 1 ==> JoinMini(mini, sectors[1..]) == []
  {
  }

  /** The bytes of one mini sector, as far as the mini stream goes. */
  lemma {:induction false} FirstMini(mini: Bytes, s: nat)
    ensures var part := Slice(mini, s * MINI_SECTOR, (s + 1) * MINI_SECTOR);
            && |part| <= MINI_SECTOR && ((s + 1) * MINI_SECTOR <= |mini| ==> |part| == MINI_SECTOR)
            && forall i :: 0 <= i < |part| ==> s * MINI_SECTOR + i < |mini| && part[i] == mini[s * MINI_SECTOR + i]
  {
  }

  /** A stream is read from its chain: byte `i` is byte `i` of the chained sectors, counted through. */
  lemma {:induction false} StreamBytes(v: Volume, record: Bytes, i: nat)
    requires v.Valid() && |record| == 128 && StreamData(v, record).Ok? && i < |StreamData(v, record).value|
    ensures var chain := StreamChain(v, record);
            && chain.Some?
            && (SizeOf(v.major, record) >= v.cutoff ==>
                  var k := i / v.sector;
                  && k < |chain.value| && (chain.value[k] + 1) * v.sector + i % v.sector < |v.raw|
                  && StreamData(v, record).value[i] == v.raw[(chain.value[k] + 1) * v.sector + i % v.sector])
            && (SizeOf(v.major, record) < v.cutoff && MiniWhole(v.mini, chain.value) ==>
                  var k := i / MINI_SECTOR;
                  && k < |chain.value| && chain.value[k] * MINI_SECTOR + i % MINI_SECTOR < |v.mini|
                  && StreamData(v, record).value[i] == v.mini[chain.value[k] * MINI_SECTOR + i % MINI_SECTOR])
  {
    hide JoinSectors, JoinMini, Follow, SizeOf, MiniWhole;
    var sectors := StreamChain(v, record).value;
    if SizeOf(v.major, record) >= v.cutoff {
      JoinedByte(v.raw, v.sector, sectors, i);
    } else if MiniWhole(v.mini, sectors) {
      JoinedMiniByte(v.mini, sectors, i / MINI_SECTOR, i % MINI_SECTOR);
    }
  }

  // ---------------------------------------------------------------- the directory tree

  /** `siblings`: walk a sibling tree with a stack; `visited` guards against rings. */
  function Siblings(records: seq<Bytes>, stack: seq<nat>, visited: set<nat>): (r: Outcome<seq<nat>>)
    requires AllOf(records, 128)
    ensures r.Ok? ==> forall i :: 0 <= i < |r.value| ==> r.value[i] < |records|
    decreases Upto(|records|) - visited, |stack|
  {
    if stack == [] then Ok([])
    else
      var current, rest := stack[|stack| - 1], stack[..|stack| - 1];
      if current == NOSTREAM then Siblings(records, rest, visited)
      else if current in visited || current >= |records| then Err(BrokenTree)
      else
        Before([current],
               Siblings(records, rest + [Get32(records[current], 0x44), Get32(records[current], 0x48)],
                        visited + {current}))
  }

  method CollectSiblings(records: seq<Bytes>, sid: nat) returns (r: Outcome<seq<nat>>)
    requires AllOf(records, 128)
    ensures r == Siblings(records, [sid], {})
  {
    var out: seq<nat>, stack: seq<nat>, visited: set<nat> := [], [sid], {};
    BeforeJoin([], [], Siblings(records, stack, visited));
    while stack != []
      invariant Siblings(records, [sid], {}) == Before(out, Siblings(records, stack, visited))
      decreases Upto(|records|) - visited, |stack|
    {
      var current := stack[|stack| - 1];
      stack := stack[..|stack| - 1];
      if current == NOSTREAM { continue; }
      if current in visited || current >= |records| { return Err(BrokenTree); }
      visited := visited + {current};
      stack := stack + [Get32(records[current], 0x44), Get32(records[current], 0x48)];
      BeforeJoin(out, [current], Siblings(records, stack, visited));
      out := out + [current];
    }
    BeforeJoin(out, [], Ok([]));
    return Ok(out);
  }

  function NameOf(record: Bytes): string
    requires |record| == 128
  {
    var len := Get16(record, 0x40);
    var m := if len < 64 then len else 64;
    Decode(record[..if m < 2 then 0 else m - 2])
  }

  /** `entry_of` for one entry, without its children. */
  function Bare(record: Bytes, data: Bytes): Entry
    requires |record| == 128
  {
    Entry(NameOf(record), record[0x42], data, record[0x50..0x60], Get32(record, 0x60),
          record[0x64..0x6C], record[0x6C..0x74], [])
  }

  function EntryOf(v: Volume, sid: nat, depth: nat): Outcome<Entry>
    requires v.Valid() && sid < |v.records| && depth <= 65
    decreases 65 - depth, 0
  {
    var record := v.records[sid];
    match (if record[0x42] == STREAM then StreamData(v, record) else Ok([]))
    case Err(e) => Err(e)
    case Ok(data) =>
      var node := Bare(record, data);
      if !IsStorage(node) then Ok(node)
      else if depth > 64 then Err(TooDeep)
      else match Siblings(v.records, [Get32(record, 0x4C)], {})
        case Err(e) => Err(e)
        case Ok(sids) =>
          match EntriesOf(v, sids, depth + 1)
          case Err(e) => Err(e)
          case Ok(children) => Ok(node.(children := children))
  }

  function EntriesOf(v: Volume, sids: seq<nat>, depth: nat): (r: Outcome<seq<Entry>>)
    requires v.Valid() && depth <= 65 && forall i :: 0 <= i < |sids| ==> sids[i] < |v.records|
    decreases 65 - depth, 1 + |sids|
  {
    if sids == [] then Ok([])
    else match EntryOf(v, sids[0], depth)
      case Err(e) => Err(e)
      case Ok(entry) => Before([entry], EntriesOf(v, sids[1..], depth))
  }

  /** `read`. */
  function Read(raw: Bytes): Outcome<Entry> {
    match Open(raw)
    case Err(e) => Err(e)
    case Ok(v) => if v.records[0][0x42] != ROOT then Err(NoRoot) else EntryOf(v, 0, 0)
  }

  // ---------------------------------------------------------------- what reading can never return

  /** Whatever the bytes are, version 3 gives streams below 4 GiB and storages at most 64 deep. */
  lemma {:induction false} EntryIsReadable(v: Volume, sid: nat, depth: nat)
    requires v.Valid() && v.major == 3 && sid < |v.records| && depth <= 65
    ensures EntryOf(v, sid, depth).Ok? ==> Readable(EntryOf(v, sid, depth).value, depth)
    decreases 65 - depth, 0
  {
    var record := v.records[sid];
    if EntryOf(v, sid, depth).Ok? && (record[0x42] == STORAGE || record[0x42] == ROOT) {
      var sids := Siblings(v.records, [Get32(record, 0x4C)], {}).value;
      EntriesAreReadable(v, sids, depth + 1);
    }
  }

  lemma {:induction false} EntriesAreReadable(v: Volume, sids: seq<nat>, depth: nat)
    requires v.Valid() && v.major == 3 && depth <= 65 && forall i :: 0 <= i < |sids| ==> sids[i] < |v.records|
    ensures var r := EntriesOf(v, sids, depth);
            r.Ok? ==> |r.value| == |sids| && forall i :: 0 <= i < |sids| ==> Readable(r.value[i], depth)
    decreases 65 - depth, 1 + |sids|
  {
    if sids != [] {
      EntryIsReadable(v, sids[0], depth);
      EntriesAreReadable(v, sids[1..], depth);
    }
  }
}
