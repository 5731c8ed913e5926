/** The bytes of a written file, in numbers: header, allocation tables and their marks, directory records and where streams
    lie ([MS-CFB] sections 2.2 to 2.6). */
module CfbBytes {
  import opened Base
  import opened CfbFormat
  import opened CfbAlloc
  import opened CfbEntry
  import opened CfbTree
  import opened CfbImage
  import opened CfbFields
  import opened CfbVolume
  import opened CfbOpen
  import opened CfbLinks
  import CfbRead

  // ---------------------------------------------------------------- the header

  /** The fixed fields of a version 3 header. */
  ghost predicate HeaderRight(raw: Bytes) {
    && |raw| >= 512 && |raw| % 512 == 0
    && raw[..8] == [0xD0, 0xCF, 0x11, 0xE0, 0xA1, 0xB1, 0x1A, 0xE1]
    && (forall i :: 8 <= i < 24 ==> raw[i] == 0)
    && Get16(raw, 24) == 0x3E && Get16(raw, 26) == 3 && Get16(raw, 28) == 0xFFFE && Get16(raw, 30) == 9 && Get16(raw, 32) == 6
    && (forall i :: 34 <= i < 44 ==> raw[i] == 0)
    && Get32(raw, 52) == 0 && Get32(raw, 56) == 4096
    && (Get32(raw, 64) == 0 ==> Get32(raw, 60) == 0xFFFF_FFFE) && (Get32(raw, 72) == 0 ==> Get32(raw, 68) == 0xFFFF_FFFE)
  }

  lemma {:induction false} PlainBytes(raw: Bytes, at: nat, n: nat)
    requires HasSlice(raw, at, Zeros(n))
    ensures at + n <= |raw| && forall i :: at <= i < at + n ==> raw[i] == 0
  {
    forall i | at <= i < at + n
      ensures raw[i] == 0
    {
      assert raw[at..at + n][i - at] == raw[i];
    }
  }

  /** The header, region by region. */
  lemma {:induction false} HeaderSlices(p: Plan)
    requires Packable(HeaderWords(p)) && Packable(HeadWords(p))
    ensures var h := Header(p);
            && |h| == 512 && HasSlice(h, 0, CfbRead.SIGNATURE) && HasSlice(h, 8, Zeros(16))
            && HasSlice(h, 24, U16(0x3E)) && HasSlice(h, 34, Zeros(10)) && HasSlice(h, 44, Words(HeaderWords(p)))
  {
    var a, b := CfbRead.SIGNATURE + Zeros(16), U16(0x3E) + U16(3) + U16(0xFFFE) + U16(9) + U16(6);
    var c, d := Words(HeaderWords(p)), Words(HeadWords(p));
    assert |a| == 24 && |b| == 10 && |CfbRead.SIGNATURE| == 8;
    SixParts(a, b, Zeros(10), c, d, []);
    assert Header(p) + [] == Header(p);
    hide Header, Zeros, U16, Words;
    InnerField(Header(p), 0, CfbRead.SIGNATURE, Zeros(16));
    assert b == U16(0x3E) + (U16(3) + U16(0xFFFE) + U16(9) + U16(6));
    InnerField(Header(p), 24, U16(0x3E), U16(3) + U16(0xFFFE) + U16(9) + U16(6));
  }

  lemma {:induction false} WordsInNumbers(p: Plan)
    ensures var w := HeaderWords(p);
            && |w| == 8 && w[0] == p.fat && w[1] == p.DirStart() && w[2] == 0 && w[3] == 4096
            && w[4] == (if p.minifat > 0 then p.MinifatStart() else 0xFFFF_FFFE) && w[5] == p.minifat
            && w[6] == (if p.difat > 0 then p.DifatStart() else 0xFFFF_FFFE) && w[7] == p.difat
    ensures CfbRead.SIGNATURE == [0xD0, 0xCF, 0x11, 0xE0, 0xA1, 0xB1, 0x1A, 0xE1]
    ensures SECTOR == 512
  {
  }

  /** The variable fields of the header of a written file. */
  ghost predicate HeaderCounts(raw: Bytes, p: Plan) {
    && |raw| >= 512
    && Get32(raw, 44) == p.fat && Get32(raw, 48) == p.DirStart() && Get32(raw, 52) == 0 && Get32(raw, 56) == 4096
    && Get32(raw, 60) == (if p.minifat > 0 then p.MinifatStart() else 0xFFFF_FFFE) && Get32(raw, 64) == p.minifat
    && Get32(raw, 68) == (if p.difat > 0 then p.DifatStart() else 0xFFFF_FFFE) && Get32(raw, 72) == p.difat
  }

  lemma {:induction false} CountsFound(raw: Bytes, p: Plan)
    requires Packable(HeaderWords(p)) && Packable(HeadWords(p)) && HasSlice(raw, 0, Header(p))
    ensures HeaderCounts(raw, p)
  {
    hide *;
    WordsInNumbers(p);
    HeaderWord(raw, p, 0, 44);
    HeaderWord(raw, p, 1, 48);
    HeaderWord(raw, p, 2, 52);
    HeaderWord(raw, p, 3, 56);
    HeaderWord(raw, p, 4, 60);
    HeaderWord(raw, p, 5, 64);
    HeaderWord(raw, p, 6, 68);
    HeaderWord(raw, p, 7, 72);
    AreCounts(raw, p);
  }

  lemma {:induction false} HeaderWord(raw: Bytes, p: Plan, k: nat, at: nat)
    requires Packable(HeaderWords(p)) && Packable(HeadWords(p)) && HasSlice(raw, 0, Header(p)) && k < 8 && at == 44 + 4 * k
    ensures |raw| >= 512 && Get32(raw, at) == HeaderWords(p)[k]
  {
    hide HasSlice, HeaderWords, HeadWords, Header, Packable, Get32;
    HeaderFields(raw, p);
    assert Get32(raw, 0x2C + 4 * k) == HeaderWords(p)[k];
  }

  lemma {:induction false} AreCounts(raw: Bytes, p: Plan)
    requires |raw| >= 512
    requires Get32(raw, 44) == p.fat && Get32(raw, 48) == p.DirStart() && Get32(raw, 52) == 0 && Get32(raw, 56) == 4096
    requires Get32(raw, 60) == (if p.minifat > 0 then p.MinifatStart() else 0xFFFF_FFFE) && Get32(raw, 64) == p.minifat
    requires Get32(raw, 68) == (if p.difat > 0 then p.DifatStart() else 0xFFFF_FFFE) && Get32(raw, 72) == p.difat
    ensures HeaderCounts(raw, p)
  {
    hide Get32;
  }

  lemma {:induction false} HeaderIsRight(raw: Bytes, p: Plan)
    requires Packable(HeaderWords(p)) && Packable(HeadWords(p)) && HasSlice(raw, 0, Header(p)) && |raw| % 512 == 0
    ensures HeaderRight(raw)
  {
    hide *;
    CountsFound(raw, p);
    CountsSay(raw, p);
    HeaderSlices(p);
    HeaderFields(raw, p);
    SliceInside(raw, 0, Header(p), 0, CfbRead.SIGNATURE);
    SliceInside(raw, 0, Header(p), 8, Zeros(16));
    SliceInside(raw, 0, Header(p), 24, U16(0x3E));
    SliceInside(raw, 0, Header(p), 34, Zeros(10));
    PlainBytes(raw, 8, 16);
    PlainBytes(raw, 34, 10);
    Field16(raw, 24, 0x3E);
    VersionFound(raw, p);
    WordsInNumbers(p);
    SliceIs(raw, 0, CfbRead.SIGNATURE, 8);
    IsRight(raw);
  }

  lemma {:induction false} CountsSay(raw: Bytes, p: Plan)
    requires HeaderCounts(raw, p)
    ensures |raw| >= 512 && Get32(raw, 52) == 0 && Get32(raw, 56) == 4096
    ensures (Get32(raw, 64) == 0 ==> Get32(raw, 60) == 0xFFFF_FFFE) && (Get32(raw, 72) == 0 ==> Get32(raw, 68) == 0xFFFF_FFFE)
  {
  }

  lemma {:induction false} VersionFound(raw: Bytes, p: Plan)
    requires Packable(HeaderWords(p)) && Packable(HeadWords(p)) && HasSlice(raw, 0, Header(p)) && |raw| >= 512
    ensures Get16(raw, 26) == 3 && Get16(raw, 28) == 0xFFFE && Get16(raw, 30) == 9 && Get16(raw, 32) == 6
  {
    HeaderParts(p);
    hide Header, Words, HeaderWords, HeadWords;
    SliceInside(raw, 0, Header(p), 0x18, U16(0x3E) + U16(3) + U16(0xFFFE) + U16(9) + U16(6));
    VersionFields(raw);
  }

  lemma {:induction false} IsRight(raw: Bytes)
    requires |raw| >= 512 && |raw| % 512 == 0
    requires raw[0..8] == [0xD0, 0xCF, 0x11, 0xE0, 0xA1, 0xB1, 0x1A, 0xE1]
    requires forall i :: 8 <= i < 24 ==> raw[i] == 0
    requires Get16(raw, 24) == 0x3E && Get16(raw, 26) == 3 && Get16(raw, 28) == 0xFFFE && Get16(raw, 30) == 9
    requires Get16(raw, 32) == 6 && forall i :: 34 <= i < 44 ==> raw[i] == 0
    requires Get32(raw, 52) == 0 && Get32(raw, 56) == 4096
    requires (Get32(raw, 64) == 0 ==> Get32(raw, 60) == 0xFFFF_FFFE) && (Get32(raw, 72) == 0 ==> Get32(raw, 68) == 0xFFFF_FFFE)
    ensures HeaderRight(raw)
  {
    hide Get16, Get32;
    assert raw[0..8] == raw[..8];
  }

  // ---------------------------------------------------------------- the marks in the FAT

  /** `n` DIFAT sectors from `at` on, each naming the next in its last word. */
  ghost function DifatList(raw: Bytes, n: nat, at: nat): (sectors: seq<nat>) {
    if n == 0 then []
    else if 512 * (at + 2) > |raw| then [at]
    else [at] + DifatList(raw, n - 1, Get32(raw, 512 * (at + 1) + 508))
  }

  ghost function Count(words: seq<nat>, v: nat): nat {
    if words == [] then 0 else Count(words[..|words| - 1], v) + if words[|words| - 1] == v then 1 else 0
  }

  /** The entry of every FAT sector that header and DIFAT list says so, and so does that of every DIFAT sector; no other
      entry has these values. An entry is free exactly if its sector is not in the file; any other names a sector or ends a
      chain. The header counts both kinds. */
  ghost predicate Marked(raw: Bytes) {
    && |raw| >= 512
    && var listed := CfbRead.Before(CfbRead.HeaderFat(raw), CfbRead.DifatFat(raw, 512, Get32(raw, 68), {}));
    var fat := CfbRead.Fat(raw, 512);
    && listed.Ok? && fat.Ok? && |raw| <= 512 * (|fat.value| + 1)
    && MarkedAs(fat.value, listed.value, DifatList(raw, Get32(raw, 72), Get32(raw, 68)), |raw| / 512 - 1)
    && Get32(raw, 44) == |listed.value| == Count(fat.value, 0xFFFF_FFFD)
    && Get32(raw, 72) == |DifatList(raw, Get32(raw, 72), Get32(raw, 68))| == Count(fat.value, 0xFFFF_FFFC)
  }

  ghost predicate MarkedAs(fat: seq<nat>, fatSectors: seq<nat>, difatSectors: seq<nat>, n: int) {
    forall s: nat :: s < |fat| ==>
      && (fat[s] == 0xFFFF_FFFD <==> s in fatSectors)
      && (fat[s] == 0xFFFF_FFFC <==> s in difatSectors)
      && (fat[s] == 0xFFFF_FFFF <==> s >= n)
      && (fat[s] < 0xFFFF_FFFC ==> fat[s] < n)
  }

  lemma {:induction false} CountStretch(words: seq<nat>, v: nat, lo: nat, hi: nat)
    requires lo <= hi <= |words| && forall s :: 0 <= s < |words| ==> (words[s] == v <==> lo <= s < hi)
    ensures Count(words, v) == hi - lo
    decreases |words|
  {
    if words != [] {
      var n := |words| - 1;
      CountStretch(words[..n], v, if lo <= n then lo else n, if hi <= n then hi else n);
    }
  }

  /** The entries of the written FAT. */
  lemma {:induction false} FatEntries(nodes: seq<Entry>)
    requires PlanOf(nodes).Total() <= MAXREGSECT + 1
    ensures var p, fat := PlanOf(nodes), FatWords(nodes, PlanOf(nodes));
            && |fat| == 128 * p.fat && p.Total() <= |fat|
            && forall s: nat :: s < |fat| ==>
                 && (fat[s] == 0xFFFF_FFFD <==> p.FatStart() <= s < p.DifatStart())
                 && (fat[s] == 0xFFFF_FFFC <==> p.DifatStart() <= s < p.Total())
                 && (fat[s] == 0xFFFF_FFFF <==> s >= p.Total())
                 && (fat[s] < 0xFFFF_FFFC ==> fat[s] < p.Total())
  {
    hide *;
    var p := PlanOf(nodes);
    NumbersAre();
    FatSize(nodes);
    PlanSuffices(nodes);
    FatIs(nodes);
    StartsInOrder(p);
    LessIs(PER_SECTOR * p.fat, p.Total());
    var a, b := Chained(nodes, SECTOR), ChainWords(p.MiniStart(), p.mini);
    var c, d := ChainWords(p.MinifatStart(), p.minifat), ChainWords(p.DirStart(), p.dir);
    ChainedPackable(nodes, SECTOR);
    ChainWordsAre(p.MiniStart(), p.mini);
    ChainWordsAre(p.MinifatStart(), p.minifat);
    ChainWordsAre(p.DirStart(), p.dir);
    FillIs(FATSECT, p.fat);
    FillIs(DIFSECT, p.difat);
    FillIs(FREESECT, PER_SECTOR * p.fat - p.Total());
    RegionsAdd(p);
    Sevenfold(a, b, c, d, Fill(FATSECT, p.fat), Fill(DIFSECT, p.difat), Fill(FREESECT, PER_SECTOR * p.fat - p.Total()),
              p.FatStart(), p.DifatStart(), p.Total());
  }

  lemma {:induction false} NumbersAre()
    ensures SECTOR == 512 && PER_SECTOR == 128 && MAXREGSECT == 0xFFFF_FFFA && ENDOFCHAIN == 0xFFFF_FFFE
    ensures FATSECT == 0xFFFF_FFFD && DIFSECT == 0xFFFF_FFFC && FREESECT == 0xFFFF_FFFF
  {
  }

  lemma {:induction false} RegionsAdd(p: Plan)
    ensures p.FatStart() == p.DirStart() + p.dir && p.DirStart() == p.MinifatStart() + p.minifat
    ensures p.MinifatStart() == p.MiniStart() + p.mini
  {
  }

  lemma {:induction false} FillIs(word: nat, n: nat)
    ensures |Fill(word, n)| == n && forall i :: 0 <= i < n ==> Fill(word, n)[i] == word
  {
  }

  lemma {:induction false} ChainWordsAre(first: nat, count: nat)
    ensures var words := ChainWords(first, count);
            |words| == count && forall i :: 0 <= i < count ==> words[i] == 0xFFFF_FFFE || words[i] < first + count
  {
  }

  lemma {:induction false} Sevenfold(a: seq<nat>, b: seq<nat>, c: seq<nat>, d: seq<nat>, e: seq<nat>, f: seq<nat>, g: seq<nat>,
                                     lo: nat, mid: nat, n: nat)
    requires lo == |a| + |b| + |c| + |d| && mid == lo + |e| && n == mid + |f| <= 0xFFFF_FFFB
    requires forall i :: 0 <= i < |a| ==> a[i] == 0xFFFF_FFFE || a[i] < |a|
    requires forall i :: 0 <= i < |b| ==> b[i] == 0xFFFF_FFFE || b[i] < |a| + |b|
    requires forall i :: 0 <= i < |c| ==> c[i] == 0xFFFF_FFFE || c[i] < |a| + |b| + |c|
    requires forall i :: 0 <= i < |d| ==> d[i] == 0xFFFF_FFFE || d[i] < lo
    requires forall i :: 0 <= i < |e| ==> e[i] == 0xFFFF_FFFD
    requires forall i :: 0 <= i < |f| ==> f[i] == 0xFFFF_FFFC
    requires forall i :: 0 <= i < |g| ==> g[i] == 0xFFFF_FFFF
    ensures var r := a + b + c + d + e + f + g;
            forall s: nat :: s < |r| ==>
              && (r[s] == 0xFFFF_FFFD <==> lo <= s < mid) && (r[s] == 0xFFFF_FFFC <==> mid <= s < n)
              && (r[s] == 0xFFFF_FFFF <==> s >= n) && (r[s] < 0xFFFF_FFFC ==> r[s] < n)
  {
    var front := a + b + c + d;
    assert forall i :: 0 <= i < |front| ==> front[i] == 0xFFFF_FFFE || front[i] < lo;
    var r := front + e + f + g;
    forall s: nat | s < |r|
      ensures (r[s] == 0xFFFF_FFFD <==> lo <= s < mid) && (r[s] == 0xFFFF_FFFC <==> mid <= s < n)
      ensures (r[s] == 0xFFFF_FFFF <==> s >= n) && (r[s] < 0xFFFF_FFFC ==> r[s] < n)
    {
      assert r[s] == if s < lo then front[s] else if s < mid then e[s - lo] else if s < n then f[s - mid] else g[s - n];
    }
  }

  /** The DIFAT sectors are found one after another, and there are as many as the header says. */
  lemma {:induction false} DifatListed(raw: Bytes, p: Plan, i: nat)
    requires DifatFits(p) && DifatPlaced(raw, p) && i <= p.difat
    ensures DifatList(raw, p.difat - i, if i < p.difat then p.DifatStart() + i else ENDOFCHAIN) == Range(p.DifatStart() + i, p.difat - i)
    decreases p.difat - i
  {
    if i < p.difat {
      var at := p.DifatStart() + i;
      assert HasSlice(raw, (at + 1) * SECTOR, Words(DifatWords(p, i)));
      FieldWord(raw, (at + 1) * SECTOR, DifatWords(p, i), 127);
      assert DifatWords(p, i)[127] == NextDifat(p, i);
      DifatListed(raw, p, i + 1);
      RangeStep(p.DifatStart() + i, p.difat - i);
    }
  }

  lemma {:induction false} InRangeOf(first: nat, count: nat)
    ensures |Range(first, count)| == count && forall s: nat :: s in Range(first, count) <==> first <= s < first + count
  {
    forall s: nat | first <= s < first + count
      ensures s in Range(first, count)
    {
      assert Range(first, count)[s - first] == s;
    }
  }

  /** All FAT and DIFAT sectors of a written file are marked, and only they. */
  lemma {:induction false} ImageIsMarked(raw: Bytes, nodes: seq<Entry>, links: seq<Link>)
    requires InRange(nodes, links) && Placed(raw, nodes, links, PlanOf(nodes)) && |raw| == 512 * (PlanOf(nodes).Total() + 1)
    ensures Marked(raw)
  {
    hide *;
    var p := PlanOf(nodes);
    InRangeSays(raw, nodes, links);
    CountsFound(raw, p);
    DifatIsPlaced(raw, p);
    FatSectorsFound(raw, nodes);
    FatFound(raw, nodes, links);
    FatEntries(nodes);
    NumbersAre();
    StartsInOrder(p);
    DifatListed(raw, p, 0);
    InRangeOf(p.FatStart(), p.fat);
    InRangeOf(p.DifatStart(), p.difat);
    CountStretch(FatWords(nodes, p), 0xFFFF_FFFD, p.FatStart(), p.DifatStart());
    CountStretch(FatWords(nodes, p), 0xFFFF_FFFC, p.DifatStart(), p.Total());
    IsMarked(raw, p, FatWords(nodes, p));
  }

  lemma {:induction false} InRangeSays(raw: Bytes, nodes: seq<Entry>, links: seq<Link>)
    requires InRange(nodes, links) && Placed(raw, nodes, links, PlanOf(nodes))
    ensures var p := PlanOf(nodes);
            && p.Total() <= MAXREGSECT + 1 && DifatFits(p) && Packable(HeaderWords(p)) && Packable(HeadWords(p))
            && HasSlice(raw, 0, Header(p)) && HasSlice(raw, (p.DifatStart() + 1) * SECTOR, Join(DifatSectors(p)))
  {
    hide PlanOf, Stored, Records, Join, Words, FatWords, MinifatWords, Chained, Packable, DirectoryFits;
  }

  lemma {:induction false} IsMarked(raw: Bytes, p: Plan, fat: seq<nat>)
    requires HeaderCounts(raw, p) && |raw| == 512 * (p.Total() + 1)
    requires CfbRead.Before(CfbRead.HeaderFat(raw), CfbRead.DifatFat(raw, 512, Get32(raw, 68), {})) == Ok(Range(p.FatStart(), p.fat))
    requires CfbRead.Fat(raw, 512) == Ok(fat) && p.Total() <= |fat|
    requires DifatList(raw, p.difat, if p.difat > 0 then p.DifatStart() else 0xFFFF_FFFE) == Range(p.DifatStart(), p.difat)
    requires |Range(p.FatStart(), p.fat)| == p.fat && |Range(p.DifatStart(), p.difat)| == p.difat
    requires forall s: nat :: s in Range(p.FatStart(), p.fat) <==> p.FatStart() <= s < p.DifatStart()
    requires forall s: nat :: s in Range(p.DifatStart(), p.difat) <==> p.DifatStart() <= s < p.Total()
    requires forall s: nat :: s < |fat| ==>
               && (fat[s] == 0xFFFF_FFFD <==> p.FatStart() <= s < p.DifatStart())
               && (fat[s] == 0xFFFF_FFFC <==> p.DifatStart() <= s < p.Total())
               && (fat[s] == 0xFFFF_FFFF <==> s >= p.Total()) && (fat[s] < 0xFFFF_FFFC ==> fat[s] < p.Total())
    requires Count(fat, 0xFFFF_FFFD) == p.fat && Count(fat, 0xFFFF_FFFC) == p.difat
    ensures Marked(raw)
  {
    hide CfbRead.Before, CfbRead.HeaderFat, CfbRead.DifatFat, CfbRead.Fat, DifatList, Count, Range, Get32;
  }

  // ---------------------------------------------------------------- the size of a file

  /** A written file is its header and its sectors. */
  lemma {:induction false} ImageSize(nodes: seq<Entry>, links: seq<Link>)
    requires Fits(nodes, PlanOf(nodes), links)
    ensures |Image(nodes, links)| == 512 * (PlanOf(nodes).Total() + 1)
  {
    hide *;
    var p := PlanOf(nodes);
    ImageIs(nodes, links);
    ImageSizes(nodes, links);
    HeaderSlices(p);
    DifatSize(p);
    SizesAdd(p);
  }

  lemma {:induction false} DifatSize(p: Plan)
    requires DifatFits(p)
    ensures |Join(DifatSectors(p))| == 512 * p.difat
  {
    JoinLength(DifatSectors(p), SECTOR);
  }

  lemma {:induction false} SizesAdd(p: Plan)
    ensures 512 + p.big * SECTOR + p.mini * SECTOR + p.minifat * SECTOR + p.dir * SECTOR + p.fat * SECTOR + 512 * p.difat
         == 512 * (p.Total() + 1)
  {
  }

  // ---------------------------------------------------------------- directory records

  /** The name field: UTF-16, zeros behind it, and its length in bytes with the terminator. */
  ghost predicate NameRight(raw: Bytes, at: nat, name: seq<byte>) {
    && at + 128 <= |raw| && |name| <= 62
    && raw[at..at + |name|] == name && raw[at + |name|..at + 64] == Zeros(64 - |name|)
    && Get16(raw, at + 64) == |name| + 2
  }

  /** A field of fixed length holds what fits, and zeros behind it. */
  lemma {:induction false} FitSays(data: Bytes, n: nat)
    ensures |Fit(data, n)| == n
    ensures forall i :: 0 <= i < n ==> Fit(data, n)[i] == if i < |data| then data[i] else 0
  {
  }

  /** The record of an entry that begins at byte `at`. Streams (2) have no times and their own size; only the root (5) and
      streams have a start. */
  ghost predicate RecordRight(raw: Bytes, at: nat, e: Entry, link: Link) {
    && at + 128 <= |raw|
    && NameRight(raw, at, Encode(e.name)) && raw[at + 66] == e.kind && raw[at + 67] == link.color
    && Get32(raw, at + 68) == link.left && Get32(raw, at + 72) == link.right && Get32(raw, at + 76) == link.child
    && raw[at + 80..at + 96] == Fit(e.clsid, 16) && Get32(raw, at + 96) == e.state
    && (e.kind == 2 ==> raw[at + 100..at + 116] == Zeros(16))
    && (e.kind != 2 ==> raw[at + 100..at + 108] == Fit(e.created, 8) && raw[at + 108..at + 116] == Fit(e.modified, 8))
    && (e.kind == 2 ==> Get32(raw, at + 120) + 0x1_0000_0000 * Get32(raw, at + 124) == |e.data|)
    && (e.kind == 2 && e.data == [] ==> Get32(raw, at + 116) == 0xFFFF_FFFE)
    && (e.kind != 2 && e.kind != 5 ==>
          Get32(raw, at + 116) == 0 && Get32(raw, at + 120) == 0 && Get32(raw, at + 124) == 0)
  }

  /** Where the bytes of a stream are: from 4096 bytes on in sectors of 512 bytes, below in units of 64 bytes of the mini
      stream, which begins at sector `mini`; in both cases filled up with zeros. */
  ghost predicate DataRight(raw: Bytes, at: nat, e: Entry, mini: nat) {
    e.kind == 2 && e.data != [] ==>
      && at + 128 <= |raw|
      && var first := Get32(raw, at + 116);
      if |e.data| >= 4096 then HasSlice(raw, 512 * (first + 1), e.data + Zeros((512 - |e.data| % 512) % 512))
      else HasSlice(raw, 512 * (mini + 1) + 64 * first, e.data + Zeros((64 - |e.data| % 64) % 64))
  }

  lemma {:induction false} PadInNumbers(data: Bytes, unit: nat)
    requires unit == 512 || unit == 64
    ensures Pad(data, unit) == data + Zeros((unit - |data| % unit) % unit)
  {
    CeilDivBounds(|data|, unit);
    if unit == 512 { Rest512(|data|, CeilDiv(|data|, 512)); } else { Rest64(|data|, CeilDiv(|data|, 64)); }
  }

  lemma {:induction false} Rest512(size: nat, n: nat)
    requires size <= n * 512 < size + 512
    ensures n * 512 - size == (512 - size % 512) % 512
  {
  }

  lemma {:induction false} Rest64(size: nat, n: nat)
    requires size <= n * 64 < size + 64
    ensures n * 64 - size == (64 - size % 64) % 64
  {
  }

  /** The fields of one record. */
  lemma {:induction false} RecordInNumbers(e: Entry, link: Link, start: nat, size: nat)
    requires RecordFits(e, link, start, size)
    ensures var r := Record(e, link, start, size);
            && NameRight(r, 0, Encode(e.name)) && r[66] == e.kind && r[67] == link.color
            && Get32(r, 68) == link.left && Get32(r, 72) == link.right && Get32(r, 76) == link.child
            && r[80..96] == Fit(e.clsid, 16) && Get32(r, 96) == e.state
            && (e.kind == 2 ==> r[100..116] == Zeros(16))
            && (e.kind != 2 ==> r[100..108] == Fit(e.created, 8) && r[108..116] == Fit(e.modified, 8))
            && Get32(r, 116) == start && Get32(r, 120) + 0x1_0000_0000 * Get32(r, 124) == size
  {
    hide *;
    var r, name := Record(e, link, start, size), Encode(e.name);
    FitsField(e, link, start, size);
    RecordParts(e, link, start, size);
    RecordName(e, link, start, size);
    RecordPointers(e, link, start, size);
    RecordPlain(e, link, start, size);
    InnerField(r, 0, name, Zeros(64 - |name|));
    SliceIs(r, |name|, Zeros(64 - |name|), 64);
    InnerField(r, 64, U16(|name| + 2), [e.kind, link.color]);
    Field16(r, 64, |name| + 2);
    SliceIs(r, 0, name, |name|);
    IsNamed(r, name);
    InnerField(r, 116, U32(start), U64(size));
    Field32(r, 116, start);
    Field64(r, 120, size);
    Halves(size);
    Times(r, e);
  }

  lemma {:induction false} Halves(n: nat)
    ensures n % 0x1_0000_0000 + 0x1_0000_0000 * (n / 0x1_0000_0000) == n
  {
  }

  lemma {:induction false} FitsField(e: Entry, link: Link, start: nat, size: nat)
    requires RecordFits(e, link, start, size)
    ensures |Encode(e.name)| <= 62 && start <= MAX32 && size < 0x1_0000_0000_0000_0000 && |Record(e, link, start, size)| == 128
  {
  }

  lemma {:induction false} IsNamed(r: Bytes, name: Bytes)
    requires |r| == 128 && |name| <= 62 && r[0..|name|] == name && Get16(r, 64) == |name| + 2
    requires r[|name|..64] == Zeros(64 - |name|)
    ensures NameRight(r, 0, name)
  {
    hide Get16, Zeros;
  }

  lemma {:induction false} Times(r: Bytes, e: Entry)
    requires |r| == 128
    requires r[0x64..0x6C] == Fit(if e.kind == STREAM then [] else e.created, 8)
    requires r[0x6C..0x74] == Fit(if e.kind == STREAM then [] else e.modified, 8)
    ensures e.kind == 2 ==> r[100..116] == Zeros(16)
    ensures e.kind != 2 ==> r[100..108] == Fit(e.created, 8) && r[108..116] == Fit(e.modified, 8)
  {
    assert r[100..116] == r[0x64..0x6C] + r[0x6C..0x74];
    if e.kind == 2 { assert Fit([], 8) == Zeros(8) && Zeros(8) + Zeros(8) == Zeros(16); }
  }

  /** Fields of a record that lies in the file. */
  lemma {:induction false} RecordLies(raw: Bytes, at: nat, r: Bytes, e: Entry, link: Link)
    requires HasSlice(raw, at, r) && |r| == 128 && NameRight(r, 0, Encode(e.name))
    ensures at + 128 <= |raw| && NameRight(raw, at, Encode(e.name)) && raw[at + 66] == r[66] && raw[at + 67] == r[67]
    ensures Get32(raw, at + 68) == Get32(r, 68) && Get32(raw, at + 72) == Get32(r, 72) && Get32(raw, at + 76) == Get32(r, 76)
    ensures raw[at + 80..at + 96] == r[80..96] && Get32(raw, at + 96) == Get32(r, 96)
    ensures raw[at + 100..at + 116] == r[100..116]
    ensures raw[at + 100..at + 108] == r[100..108] && raw[at + 108..at + 116] == r[108..116]
    ensures Get32(raw, at + 116) == Get32(r, 116) && Get32(raw, at + 120) == Get32(r, 120)
    ensures Get32(raw, at + 124) == Get32(r, 124)
  {
    hide *;
    NameLies(raw, at, r, e);
    WordLies(raw, at, r, 68);
    WordLies(raw, at, r, 72);
    WordLies(raw, at, r, 76);
    WordLies(raw, at, r, 96);
    WordLies(raw, at, r, 116);
    WordLies(raw, at, r, 120);
    WordLies(raw, at, r, 124);
    PartLies(raw, at, r, 80, 96);
    PartLies(raw, at, r, 100, 116);
    PartLies(raw, at, r, 100, 108);
    PartLies(raw, at, r, 108, 116);
    ByteLies(raw, at, r, 66);
    ByteLies(raw, at, r, 67);
  }

  lemma {:induction false} ByteLies(raw: Bytes, at: nat, r: Bytes, k: nat)
    requires HasSlice(raw, at, r) && k < |r|
    ensures at + |r| <= |raw| && raw[at + k] == r[k]
  {
    assert raw[at..at + |r|][k] == raw[at + k];
  }

  lemma {:induction false} PartLies(raw: Bytes, at: nat, r: Bytes, lo: nat, hi: nat)
    requires HasSlice(raw, at, r) && lo <= hi <= |r|
    ensures at + |r| <= |raw| && raw[at + lo..at + hi] == r[lo..hi]
  {
    SliceInside(raw, at, r, lo, r[lo..hi]);
  }

  lemma {:induction false} WordLies(raw: Bytes, at: nat, r: Bytes, k: nat)
    requires HasSlice(raw, at, r) && k + 4 <= |r|
    ensures at + |r| <= |raw| && Get32(raw, at + k) == Get32(r, k)
  {
    ByteLies(raw, at, r, k);
    ByteLies(raw, at, r, k + 1);
    ByteLies(raw, at, r, k + 2);
    ByteLies(raw, at, r, k + 3);
  }

  lemma {:induction false} PairLies(raw: Bytes, at: nat, r: Bytes, k: nat)
    requires HasSlice(raw, at, r) && k + 2 <= |r|
    ensures at + |r| <= |raw| && Get16(raw, at + k) == Get16(r, k)
  {
    ByteLies(raw, at, r, k);
    ByteLies(raw, at, r, k + 1);
  }

  lemma {:induction false} NameLies(raw: Bytes, at: nat, r: Bytes, e: Entry)
    requires HasSlice(raw, at, r) && |r| == 128 && NameRight(r, 0, Encode(e.name))
    ensures at + 128 <= |raw| && NameRight(raw, at, Encode(e.name))
  {
    hide HasSlice, Encode, Zeros, Get16;
    var n := |Encode(e.name)|;
    PartLies(raw, at, r, 0, n);
    PartLies(raw, at, r, n, 64);
    PairLies(raw, at, r, 64);
  }

  /** The record and the data of every entry. */
  lemma {:induction false} EntryIsRight(raw: Bytes, nodes: seq<Entry>, links: seq<Link>, s: nat)
    requires InRange(nodes, links) && Placed(raw, nodes, links, PlanOf(nodes)) && s < |nodes|
    ensures |links| == |nodes|
    ensures var p, at := PlanOf(nodes), 512 * (PlanOf(nodes).DirStart() + 1) + 128 * s;
            && RecordRight(raw, at, nodes[s], links[s]) && DataRight(raw, at, nodes[s], p.MiniStart())
            && (nodes[s].kind == 5 ==> Get32(raw, at + 116) == if p.mini > 0 then p.MiniStart() else 0xFFFF_FFFE)
  {
    hide *;
    var p, e := PlanOf(nodes), nodes[s];
    var at, start, size := 512 * (p.DirStart() + 1) + 128 * s, StartOf(nodes, p, s), SizeOf(nodes, s);
    LinksCount(nodes, links);
    RecordFound(nodes, links, s);
    RecordPlaced(raw, nodes, links, s);
    RecordInNumbers(e, links[s], start, size);
    FitsField(e, links[s], start, size);
    RecordLies(raw, at, Record(e, links[s], start, size), e, links[s]);
    StartInNumbers(nodes, p, s);
    IsRecord(raw, at, e, links[s], start, size);
    DataPlaced(raw, nodes, links, s, at);
  }

  lemma {:induction false} LinksCount(nodes: seq<Entry>, links: seq<Link>)
    requires InRange(nodes, links)
    ensures |links| == |nodes|
  {
    hide PlanOf, Stored, Packable;
  }

  lemma {:induction false} RecordPlaced(raw: Bytes, nodes: seq<Entry>, links: seq<Link>, s: nat)
    requires InRange(nodes, links) && Placed(raw, nodes, links, PlanOf(nodes)) && s < |nodes|
    requires s < |Records(nodes, PlanOf(nodes), links)|
    ensures HasSlice(raw, 512 * (PlanOf(nodes).DirStart() + 1) + 128 * s, Records(nodes, PlanOf(nodes), links)[s])
  {
    hide *;
    var p := PlanOf(nodes);
    NumbersAre();
    DirectoryPlaced(raw, nodes, links);
    var records := Records(nodes, p, links);
    JoinAt(records, 128, s);
    SliceInside(raw, 512 * (p.DirStart() + 1), Join(records), s * 128, records[s]);
  }

  lemma {:induction false} DirectoryPlaced(raw: Bytes, nodes: seq<Entry>, links: seq<Link>)
    requires InRange(nodes, links) && Placed(raw, nodes, links, PlanOf(nodes))
    ensures DirectoryFits(nodes, PlanOf(nodes), links) && AllOf(Records(nodes, PlanOf(nodes), links), 128)
    ensures HasSlice(raw, 512 * (PlanOf(nodes).DirStart() + 1), Join(Records(nodes, PlanOf(nodes), links)))
  {
    hide PlanOf, Stored, Records, Join, Words, FatWords, MinifatWords, Chained, Packable, HasSlice;
  }

  lemma {:induction false} StartInNumbers(nodes: seq<Entry>, p: Plan, s: nat)
    requires s < |nodes|
    ensures var e, start, size := nodes[s], StartOf(nodes, p, s), SizeOf(nodes, s);
            && (e.kind == 2 ==> size == |e.data|) && (e.kind == 2 && e.data == [] ==> start == 0xFFFF_FFFE)
            && (e.kind == 2 && |e.data| >= 4096 ==> start == |Chained(nodes[..s], 512)|)
            && (e.kind == 2 && 0 < |e.data| < 4096 ==> start == |Chained(nodes[..s], 64)|)
            && (e.kind != 2 && e.kind != 5 ==> start == 0 && size == 0)
            && (e.kind == 5 ==> start == if p.mini > 0 then p.MiniStart() else 0xFFFF_FFFE)
  {
  }

  lemma {:induction false} IsRecord(raw: Bytes, at: nat, e: Entry, link: Link, start: nat, size: nat)
    requires at + 128 <= |raw| && NameRight(raw, at, Encode(e.name)) && raw[at + 66] == e.kind && raw[at + 67] == link.color
    requires Get32(raw, at + 68) == link.left && Get32(raw, at + 72) == link.right && Get32(raw, at + 76) == link.child
    requires raw[at + 80..at + 96] == Fit(e.clsid, 16) && Get32(raw, at + 96) == e.state
    requires e.kind == 2 ==> raw[at + 100..at + 116] == Zeros(16)
    requires e.kind != 2 ==> raw[at + 100..at + 108] == Fit(e.created, 8) && raw[at + 108..at + 116] == Fit(e.modified, 8)
    requires Get32(raw, at + 116) == start && Get32(raw, at + 120) + 0x1_0000_0000 * Get32(raw, at + 124) == size
    requires e.kind == 2 ==> size == |e.data|
    requires e.kind == 2 && e.data == [] ==> start == 0xFFFF_FFFE
    requires e.kind != 2 && e.kind != 5 ==> start == 0 && size == 0
    ensures RecordRight(raw, at, e, link)
  {
    hide NameRight, Get32, Fit, Zeros, Encode;
  }

  /** Stream bytes, from their region. */
  lemma {:induction false} DataPlaced(raw: Bytes, nodes: seq<Entry>, links: seq<Link>, s: nat, at: nat)
    requires InRange(nodes, links) && Placed(raw, nodes, links, PlanOf(nodes)) && s < |nodes|
    requires at + 128 <= |raw| && Get32(raw, at + 116) == StartOf(nodes, PlanOf(nodes), s)
    ensures DataRight(raw, at, nodes[s], PlanOf(nodes).MiniStart())
  {
    hide *;
    var p, e := PlanOf(nodes), nodes[s];
    StartInNumbers(nodes, p, s);
    RegionsPlaced(raw, nodes, links);
    if e.kind == 2 && e.data != [] {
      var unit := if |e.data| >= 4096 then 512 else 64;
      var lo := if |e.data| >= 4096 then 512 else 512 * (p.MiniStart() + 1);
      KeptInNumbers(e);
      StreamAt(nodes, s, unit);
      PadInNumbers(e.data, unit);
      SliceInside(raw, lo, Stored(nodes, unit), |Chained(nodes[..s], unit)| * unit, Pad(e.data, unit));
      IsData(raw, at, e, p.MiniStart(), |Chained(nodes[..s], unit)|);
    } else {
      NoData(raw, at, e, p.MiniStart());
    }
  }

  lemma {:induction false} KeptInNumbers(e: Entry)
    ensures KeptIn(e, 512) <==> e.kind == 2 && |e.data| >= 4096
    ensures KeptIn(e, 64) <==> e.kind == 2 && 0 < |e.data| < 4096
  {
  }

  lemma {:induction false} IsData(raw: Bytes, at: nat, e: Entry, mini: nat, first: nat)
    requires at + 128 <= |raw| && Get32(raw, at + 116) == first && e.kind == 2 && e.data != []
    requires if |e.data| >= 4096 then HasSlice(raw, 512 + first * 512, e.data + Zeros((512 - |e.data| % 512) % 512))
             else HasSlice(raw, 512 * (mini + 1) + first * 64, e.data + Zeros((64 - |e.data| % 64) % 64))
    ensures DataRight(raw, at, e, mini)
  {
    hide HasSlice, Zeros, Get32;
  }

  lemma {:induction false} NoData(raw: Bytes, at: nat, e: Entry, mini: nat)
    requires e.kind != 2 || e.data == []
    ensures DataRight(raw, at, e, mini)
  {
  }

  lemma {:induction false} RegionsPlaced(raw: Bytes, nodes: seq<Entry>, links: seq<Link>)
    requires InRange(nodes, links) && Placed(raw, nodes, links, PlanOf(nodes))
    ensures HasSlice(raw, 512, Stored(nodes, 512)) && HasSlice(raw, 512 * (PlanOf(nodes).MiniStart() + 1), Stored(nodes, 64))
  {
    var p, mini := PlanOf(nodes), Stored(nodes, 64);
    assert HasSlice(raw, 512, Stored(nodes, 512));
    assert HasSlice(raw, (p.MiniStart() + 1) * 512, Pad(mini, 512));
    hide PlanOf, Stored, Placed, InRange;
    SlicePair(mini, Zeros((512 - |mini| % 512) % 512));
    PadInNumbers(mini, 512);
    SliceInside(raw, (p.MiniStart() + 1) * 512, Pad(mini, 512), 0, mini);
  }

  /** The entry of a storage names the root of the tree of its children, which is black (1); an entry that is no storage
      (1) or root (5), or has no children, names none. */
  lemma {:induction false} ChildIsRight(raw: Bytes, nodes: seq<Entry>, kids: seq<seq<nat>>, links: seq<Link>,
                                        upper: string -> string, s: nat)
    requires InRange(nodes, links) && Placed(raw, nodes, links, PlanOf(nodes)) && s < |nodes|
    requires LinkedUp(upper, nodes, kids, links)
    ensures var at, e := 512 * (PlanOf(nodes).DirStart() + 1), nodes[s];
            && at + 128 * s + 128 <= |raw|
            && var child := Get32(raw, at + 128 * s + 76);
            if (e.kind == 1 || e.kind == 5) && e.children != [] then child < |nodes| && at + 128 * child + 128 <= |raw|
                                                                     && raw[at + 128 * child + 67] == 1
            else child == 0xFFFF_FFFF
  {
    hide *;
    LinksCount(nodes, links);
    EntryIsRight(raw, nodes, links, s);
    ChildByte(raw, 512 * (PlanOf(nodes).DirStart() + 1) + 128 * s, nodes[s], links[s]);
    RootIsBlack(nodes, kids, links, upper, s);
    if (nodes[s].kind == 1 || nodes[s].kind == 5) && nodes[s].children != [] {
      var c := links[s].child;
      EntryIsRight(raw, nodes, links, c);
      ChildByte(raw, 512 * (PlanOf(nodes).DirStart() + 1) + 128 * c, nodes[c], links[c]);
    }
  }

  lemma {:induction false} ChildByte(raw: Bytes, at: nat, e: Entry, link: Link)
    requires RecordRight(raw, at, e, link)
    ensures at + 128 <= |raw| && Get32(raw, at + 76) == link.child && raw[at + 67] == link.color
  {
  }

  lemma {:induction false} RootIsBlack(nodes: seq<Entry>, kids: seq<seq<nat>>, links: seq<Link>, upper: string -> string, s: nat)
    requires LinkedUp(upper, nodes, kids, links) && s < |nodes|
    ensures |links| == |nodes|
    ensures var e := nodes[s];
            if (e.kind == 1 || e.kind == 5) && e.children != [] then
              links[s].child < |nodes| && links[links[s].child].color == 1
            else links[s].child == 0xFFFF_FFFF
  {
    hide Linked, NoRedRed, BlackHeight, SiblingTree;
    assert LinkOk(upper, nodes[s], kids[s], links, s);
  }

  // ---------------------------------------------------------------- the whole file

  /** Header, marks, records and data of a file that holds these entries. */
  ghost predicate FileRight(raw: Bytes, nodes: seq<Entry>, links: seq<Link>) {
    && HeaderRight(raw) && Marked(raw) && |links| == |nodes|
    && Get32(raw, 48) == PlanOf(nodes).DirStart()
    && forall s: nat :: s < |nodes| ==>
         var at := 512 * (PlanOf(nodes).DirStart() + 1) + 128 * s;
         RecordRight(raw, at, nodes[s], links[s]) && DataRight(raw, at, nodes[s], PlanOf(nodes).MiniStart())
  }

  /** Every file that is written is right. */
  lemma {:induction false} WrittenRight(nodes: seq<Entry>, links: seq<Link>)
    requires InRange(nodes, links)
    ensures Fits(nodes, PlanOf(nodes), links)
    ensures FileRight(Image(nodes, links), nodes, links)
  {
    hide *;
    FitsInRange(nodes, links);
    var raw := Image(nodes, links);
    ImageIsPlaced(nodes, links);
    ImageSize(nodes, links);
    InRangeSays(Image(nodes, links), nodes, links);
    HeaderIsRight(Image(nodes, links), PlanOf(nodes));
    ImageIsMarked(Image(nodes, links), nodes, links);
    CountsFound(raw, PlanOf(nodes));
    LinksCount(nodes, links);
    forall s: nat | s < |nodes|
      ensures var at := 512 * (PlanOf(nodes).DirStart() + 1) + 128 * s;
              RecordRight(raw, at, nodes[s], links[s]) && DataRight(raw, at, nodes[s], PlanOf(nodes).MiniStart())
    {
      EntryIsRight(raw, nodes, links, s);
    }
    IsFile(raw, nodes, links);
  }

  lemma {:induction false} IsFile(raw: Bytes, nodes: seq<Entry>, links: seq<Link>)
    requires HeaderRight(raw) && Marked(raw) && |links| == |nodes| && HeaderCounts(raw, PlanOf(nodes))
    requires forall s: nat :: s < |nodes| ==>
               var at := 512 * (PlanOf(nodes).DirStart() + 1) + 128 * s;
               RecordRight(raw, at, nodes[s], links[s]) && DataRight(raw, at, nodes[s], PlanOf(nodes).MiniStart())
    ensures FileRight(raw, nodes, links)
  {
    hide HeaderRight, Marked, RecordRight, DataRight, PlanOf;
  }

  lemma {:induction false} FitsInRange(nodes: seq<Entry>, links: seq<Link>)
    requires InRange(nodes, links)
    ensures Fits(nodes, PlanOf(nodes), links)
  {
  }
}
