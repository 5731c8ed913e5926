/** Every field of a written header or directory record is read back from its place ([MS-CFB] sections 2.2 and 2.6.1). */
module CfbFields {
  import opened Base
  import opened CfbFormat
  import opened CfbEntry
  import opened CfbTree
  import opened CfbImage
  import CfbRead

  lemma {:induction false} Field16(raw: Bytes, at: nat, n: nat)
    requires n < 0x1_0000 && HasSlice(raw, at, U16(n))
    ensures at + 2 <= |raw| && Get16(raw, at) == n
  {
    Read16(raw, at, n);
  }

  lemma {:induction false} Field32(raw: Bytes, at: nat, n: nat)
    requires n <= MAX32 && HasSlice(raw, at, U32(n))
    ensures at + 4 <= |raw| && Get32(raw, at) == n
  {
    Read32(raw, at, n);
  }

  lemma {:induction false} Field64(raw: Bytes, at: nat, n: nat)
    requires n < 0x1_0000_0000_0000_0000 && HasSlice(raw, at, U64(n))
    ensures at + 8 <= |raw| && Get32(raw, at) == n % 0x1_0000_0000 && Get32(raw, at + 4) == n / 0x1_0000_0000
  {
    Read64(raw, at, n);
  }

  lemma {:induction false} FieldWord(raw: Bytes, at: nat, words: seq<nat>, k: nat)
    requires Packable(words) && HasSlice(raw, at, Words(words)) && k < |words|
    ensures at + 4 * k + 4 <= |raw| && Get32(raw, at + 4 * k) == words[k]
  {
    WordAt(words, k);
    SliceInside(raw, at, Words(words), 4 * k, U32(words[k]));
    Field32(raw, at + 4 * k, words[k]);
  }

  /** Six parts, one after another. */
  lemma {:induction false} SixParts<T>(a: seq<T>, b: seq<T>, c: seq<T>, d: seq<T>, e: seq<T>, f: seq<T>)
    ensures var r := a + b + c + d + e + f;
            && HasSlice(r, 0, a) && HasSlice(r, |a|, b) && HasSlice(r, |a| + |b|, c)
            && HasSlice(r, |a| + |b| + |c|, d) && HasSlice(r, |a| + |b| + |c| + |d|, e)
            && HasSlice(r, |a| + |b| + |c| + |d| + |e|, f)
  {
    hide *;
    SlicePair(a, b);
    SliceEnd(a + b, c);
    SliceEnd(a + b + c, d);
    SliceEnd(a + b + c + d, e);
    SliceEnd(a + b + c + d + e, f);
    Grow4(a + b, c, d, e, f, 0, a);
    Grow4(a + b, c, d, e, f, |a|, b);
    SliceGrow(a + b + c, d, |a| + |b|, c);
    SliceGrow(a + b + c + d, e, |a| + |b|, c);
    SliceGrow(a + b + c + d + e, f, |a| + |b|, c);
    SliceGrow(a + b + c + d, e, |a| + |b| + |c|, d);
    SliceGrow(a + b + c + d + e, f, |a| + |b| + |c|, d);
    SliceGrow(a + b + c + d + e, f, |a| + |b| + |c| + |d|, e);
  }

  lemma {:induction false} Grow4<T>(s: seq<T>, c: seq<T>, d: seq<T>, e: seq<T>, f: seq<T>, at: nat, part: seq<T>)
    requires HasSlice(s, at, part)
    ensures HasSlice(s + c + d + e + f, at, part)
  {
    hide *;
    SliceGrow(s, c, at, part);
    SliceGrow(s + c, d, at, part);
    SliceGrow(s + c + d, e, at, part);
    SliceGrow(s + c + d + e, f, at, part);
  }

  // ---------------------------------------------------------------- directory records

  lemma {:induction false} RecordParts(e: Entry, link: Link, start: nat, size: nat)
    requires RecordFits(e, link, start, size)
    ensures var r, name := Record(e, link, start, size), Encode(e.name);
            && HasSlice(r, 0, name + Zeros(64 - |name|))
            && HasSlice(r, 0x40, U16(|name| + 2) + [e.kind, link.color])
            && HasSlice(r, 0x44, U32(link.left) + U32(link.right) + U32(link.child))
            && HasSlice(r, 0x50, Fit(e.clsid, 16) + U32(e.state))
            && HasSlice(r, 0x64, Fit(if e.kind == STREAM then [] else e.created, 8)
                                 + Fit(if e.kind == STREAM then [] else e.modified, 8))
            && HasSlice(r, 0x74, U32(start) + U64(size))
  {
    hide Record, RecordFits, U16, U32, U64, Zeros, Fit;
    RecordIs(e, link, start, size);
    var name := Encode(e.name);
    var a: Bytes, b: Bytes := name + Zeros(64 - |name|), U16(|name| + 2) + [e.kind, link.color];
    var c: Bytes, d: Bytes := U32(link.left) + U32(link.right) + U32(link.child), Fit(e.clsid, 16) + U32(e.state);
    var times: Bytes := Fit(if e.kind == STREAM then [] else e.created, 8) + Fit(if e.kind == STREAM then [] else e.modified, 8);
    var last: Bytes := U32(start) + U64(size);
    SixParts(a, b, c, d, times, last);
    assert Record(e, link, start, size) == a + b + c + d + times + last;
    assert b == U16(|name| + 2) + [e.kind, link.color];
    assert |a| == 0x40 && |b| == 4 && |c| == 12 && |d| == 20 && |times| == 16;
  }

  lemma {:induction false} RecordIs(e: Entry, link: Link, start: nat, size: nat)
    requires RecordFits(e, link, start, size)
    ensures var name := Encode(e.name);
            && |name| <= 62 && link.color < 0x100 && link.left <= MAX32 && link.right <= MAX32 && link.child <= MAX32
            && e.state <= MAX32 && start <= MAX32 && size < 0x1_0000_0000_0000_0000
            && |name + Zeros(64 - |name|)| == 0x40 && |U16(|name| + 2) + [e.kind, link.color]| == 4
            && |U32(link.left) + U32(link.right) + U32(link.child)| == 12 && |Fit(e.clsid, 16) + U32(e.state)| == 20
            && |Fit(if e.kind == STREAM then [] else e.created, 8)
                + Fit(if e.kind == STREAM then [] else e.modified, 8)| == 16
            && Record(e, link, start, size)
                 == (name + Zeros(64 - |name|)) + (U16(|name| + 2) + [e.kind, link.color])
                    + (U32(link.left) + U32(link.right) + U32(link.child)) + (Fit(e.clsid, 16) + U32(e.state))
                    + (Fit(if e.kind == STREAM then [] else e.created, 8) + Fit(if e.kind == STREAM then [] else e.modified, 8))
                    + (U32(start) + U64(size))
  {
    hide Encode, Zeros, Fit, U16, U32, U64;
  }

  lemma {:induction false} RecordName(e: Entry, link: Link, start: nat, size: nat)
    requires RecordFits(e, link, start, size)
    ensures var r := Record(e, link, start, size);
            CfbRead.NameOf(r) == e.name && r[0x42] == e.kind && r[0x43] == link.color
  {
    var r, name := Record(e, link, start, size), Encode(e.name);
    RecordParts(e, link, start, size);
    hide Record, Encode;
    InnerField(r, 0, name, Zeros(64 - |name|));
    InnerField(r, 0x40, U16(|name| + 2), [e.kind, link.color]);
    Field16(r, 0x40, |name| + 2);
    assert r[..|name|] == r[0..0 + |name|];
    assert r[0x42] == r[0x42..0x42 + 2][0] && r[0x43] == r[0x42..0x42 + 2][1];
    NameRoundTrip(e.name);
  }

  lemma {:induction false} RecordPointers(e: Entry, link: Link, start: nat, size: nat)
    requires RecordFits(e, link, start, size)
    ensures var r := Record(e, link, start, size);
            Get32(r, 0x44) == link.left && Get32(r, 0x48) == link.right && Get32(r, 0x4C) == link.child
  {
    var r := Record(e, link, start, size);
    RecordParts(e, link, start, size);
    hide Record;
    InnerField(r, 0x44, U32(link.left) + U32(link.right), U32(link.child));
    InnerField(r, 0x44, U32(link.left), U32(link.right));
    Field32(r, 0x44, link.left);
    Field32(r, 0x48, link.right);
    Field32(r, 0x4C, link.child);
  }

  lemma {:induction false} RecordPlain(e: Entry, link: Link, start: nat, size: nat)
    requires RecordFits(e, link, start, size)
    ensures var r := Record(e, link, start, size);
            && r[0x50..0x60] == Fit(e.clsid, 16) && Get32(r, 0x60) == e.state
            && r[0x64..0x6C] == Fit(if e.kind == STREAM then [] else e.created, 8)
            && r[0x6C..0x74] == Fit(if e.kind == STREAM then [] else e.modified, 8)
  {
    hide *;
    var r := Record(e, link, start, size);
    assert e.state <= MAX32 by { StateFits(e, link, start, size); }
    RecordParts(e, link, start, size);
    InnerField(r, 0x50, Fit(e.clsid, 16), U32(e.state));
    InnerField(r, 0x64, Fit(if e.kind == STREAM then [] else e.created, 8),
               Fit(if e.kind == STREAM then [] else e.modified, 8));
    Field32(r, 0x60, e.state);
    SliceIs(r, 0x50, Fit(e.clsid, 16), 0x60);
    SliceIs(r, 0x64, Fit(if e.kind == STREAM then [] else e.created, 8), 0x6C);
    SliceIs(r, 0x6C, Fit(if e.kind == STREAM then [] else e.modified, 8), 0x74);
  }

  lemma {:induction false} StateFits(e: Entry, link: Link, start: nat, size: nat)
    requires RecordFits(e, link, start, size)
    ensures e.state <= MAX32
  {
  }

  lemma {:induction false} SliceIs(raw: Bytes, at: nat, part: Bytes, end: nat)
    requires HasSlice(raw, at, part) && end == at + |part|
    ensures end <= |raw| && raw[at..end] == part
  {
  }

  lemma {:induction false} RecordStart(e: Entry, link: Link, start: nat, size: nat)
    requires RecordFits(e, link, start, size)
    ensures var r := Record(e, link, start, size);
            Get32(r, 0x74) == start && CfbRead.SizeOf(3, r) == size % 0x1_0000_0000
  {
    var r := Record(e, link, start, size);
    RecordParts(e, link, start, size);
    hide Record;
    InnerField(r, 0x74, U32(start), U64(size));
    Field32(r, 0x74, start);
    Field64(r, 0x78, size);
  }

  // ---------------------------------------------------------------- the header

  lemma {:induction false} HeaderParts(p: Plan)
    requires Packable(HeaderWords(p)) && Packable(HeadWords(p))
    ensures var h := Header(p);
            && HasSlice(h, 0, CfbRead.SIGNATURE + Zeros(16))
            && HasSlice(h, 0x18, U16(0x3E) + U16(3) + U16(0xFFFE) + U16(9) + U16(6))
            && HasSlice(h, 0x2C, Words(HeaderWords(p))) && HasSlice(h, 0x4C, Words(HeadWords(p)))
  {
    var a, b := CfbRead.SIGNATURE + Zeros(16), U16(0x3E) + U16(3) + U16(0xFFFE) + U16(9) + U16(6);
    var c, d := Words(HeaderWords(p)), Words(HeadWords(p));
    assert |a| == 0x18 && |b| == 10;
    hide Zeros, U16, Words;
    SixParts(a, b, Zeros(10), c, d, []);
    assert Header(p) + [] == Header(p);
  }

  /** The header is recognised, with its sector size and its words. */
  lemma {:induction false} HeaderFields(raw: Bytes, p: Plan)
    requires Packable(HeaderWords(p)) && Packable(HeadWords(p)) && HasSlice(raw, 0, Header(p))
    ensures CfbRead.Header(raw) == Ok(512)
    ensures Get16(raw, 0x1A) == 3 && raw[0x4C..0x200] == Words(HeadWords(p))
    ensures forall k: nat :: k < 8 ==> Get32(raw, 0x2C + 4 * k) == HeaderWords(p)[k]
  {
    var h := Header(p);
    HeaderParts(p);
    hide Header;
    SliceInside(raw, 0, h, 0, CfbRead.SIGNATURE + Zeros(16));
    InnerField(raw, 0, CfbRead.SIGNATURE, Zeros(16));
    assert raw[..8] == raw[0..0 + |CfbRead.SIGNATURE|];
    SliceInside(raw, 0, h, 0x18, U16(0x3E) + U16(3) + U16(0xFFFE) + U16(9) + U16(6));
    VersionFields(raw);
    SliceInside(raw, 0, h, 0x4C, Words(HeadWords(p)));
    SliceInside(raw, 0, h, 0x2C, Words(HeaderWords(p)));
    forall k: nat | k < 8
      ensures Get32(raw, 0x2C + 4 * k) == HeaderWords(p)[k]
    {
      FieldWord(raw, 0x2C, HeaderWords(p), k);
    }
  }

  lemma {:induction false} VersionFields(raw: Bytes)
    requires |raw| >= 512 && HasSlice(raw, 0x18, U16(0x3E) + U16(3) + U16(0xFFFE) + U16(9) + U16(6))
    ensures Get16(raw, 0x1A) == 3 && Get16(raw, 0x1C) == 0xFFFE && Get16(raw, 0x1E) == 9 && Get16(raw, 0x20) == 6
  {
    InnerField(raw, 0x18, U16(0x3E) + U16(3) + U16(0xFFFE) + U16(9), U16(6));
    InnerField(raw, 0x18, U16(0x3E) + U16(3) + U16(0xFFFE), U16(9));
    InnerField(raw, 0x18, U16(0x3E) + U16(3), U16(0xFFFE));
    InnerField(raw, 0x18, U16(0x3E), U16(3));
    Field16(raw, 0x1A, 3);
    Field16(raw, 0x1C, 0xFFFE);
    Field16(raw, 0x1E, 9);
    Field16(raw, 0x20, 6);
  }
}
