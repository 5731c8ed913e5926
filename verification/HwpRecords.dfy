/** The record stream of a Hangul body (_hwp.py `_records`, `_pack`): 32-bit headers, with a second word for long payloads. */
module HwpRecords {
  import opened Base
  import opened CfbFormat

  type Bytes = seq<byte>

  /** A header with this size field is followed by the real size. */
  const LONG: nat := 0xFFF

  /** `raw` holds the original bytes as long as the record is unchanged. */
  datatype Record = Record(tag: nat, level: nat, payload: Bytes, raw: Option<Bytes>)

  /** Tag (10 bits), level (10 bits) and size (12 bits) of a header word. */
  function TagOf(header: nat): nat { header % 0x400 }
  function LevelOf(header: nat): nat { header / 0x400 % 0x400 }
  function SizeField(header: nat): nat { header / 0x10_0000 }

  /** The record at the front; None when it is cut off. */
  function FirstRecord(data: Bytes): (r: Option<Record>)
    ensures r.Some? ==> r.value.raw.Some? && 4 <= |r.value.raw.value| <= |data|
                        && r.value.raw.value == data[..|r.value.raw.value|]
  {
    if |data| < 4 then None
    else
      var header := Get32(data, 0);
      if SizeField(header) == LONG && |data| < 8 then None
      else
        var head := if SizeField(header) == LONG then 8 else 4;
        var length := if SizeField(header) == LONG then Get32(data, 4) else SizeField(header);
        if head + length > |data| then None
        else Some(Record(TagOf(header), LevelOf(header), data[head..head + length], Some(data[..head + length])))
  }

  function RecordsOf(data: Bytes): Option<seq<Record>> {
    if data == [] then Some([])
    else match FirstRecord(data)
      case None => None
      case Some(r) =>
        match RecordsOf(data[|r.raw.value|..])
        case None => None
        case Some(rest) => Some([r] + rest)
  }

  /** `_records`. */
  method Records(data: Bytes) returns (r: Option<seq<Record>>)
    ensures r == RecordsOf(data)
  {
    hide FirstRecord;
    var pos := 0;
    var records: seq<Record> := [];
    assert data[0..] == data;
    if RecordsOf(data).Some? { assert [] + RecordsOf(data).value == RecordsOf(data).value; }
    while pos < |data|
      invariant pos <= |data|
      invariant RecordsOf(data) == match RecordsOf(data[pos..]) case Some(rest) => Some(records + rest) case None => None
    {
      var first := FirstRecord(data[pos..]);
      if first.None? { return None; }
      var n := |first.value.raw.value|;
      assert data[pos..][n..] == data[pos + n..];
      if RecordsOf(data[pos + n..]).Some? {
        Assoc(records, [first.value], RecordsOf(data[pos + n..]).value);
      }
      records := records + [first.value];
      pos := pos + n;
    }
    assert records + [] == records;
    return Some(records);
  }

  /** What packing needs of a changed record. */
  ghost predicate Packable(r: Record) {
    r.raw.None? ==> r.tag < 0x400 && r.level < 0x400 && |r.payload| <= MAX32
  }

  /** `_pack`. */
  function Pack(r: Record): Bytes
    requires Packable(r)
  {
    if r.raw.Some? then r.raw.value
    else
      var size := |r.payload|;
      var head := r.tag + r.level * 0x400;
      if size >= LONG then U32(head + LONG * 0x10_0000) + U32(size) + r.payload
      else U32(head + size * 0x10_0000) + r.payload
  }

  function PackAll(records: seq<Record>): Bytes
    requires forall i :: 0 <= i < |records| ==> Packable(records[i])
  {
    if records == [] then [] else Pack(records[0]) + PackAll(records[1..])
  }

  // ---------------------------------------------------------------- reading what was packed

  /** The same record, whatever bytes it came from. */
  ghost predicate Same(a: Record, b: Record) {
    a.tag == b.tag && a.level == b.level && a.payload == b.payload
  }

  /** A record that was not touched still says what its bytes say. */
  ghost predicate Faithful(r: Record) {
    && Packable(r)
    && (r.raw.Some? ==>
          var first := FirstRecord(r.raw.value);
          first.Some? && Same(first.value, r) && first.value.raw == r.raw)
  }

  lemma {:induction false} HeaderFields(tag: nat, level: nat, size: nat)
    requires tag < 0x400 && level < 0x400 && size <= LONG
    ensures var header := tag + level * 0x400 + size * 0x10_0000;
            header <= MAX32 && TagOf(header) == tag && LevelOf(header) == level && SizeField(header) == size
  {
  }

  lemma {:induction false} PackedShort(r: Record, rest: Bytes)
    requires r.raw.None? && Packable(r) && |r.payload| < LONG
    ensures var first := FirstRecord(Pack(r) + rest);
            first.Some? && Same(first.value, r) && |first.value.raw.value| == |Pack(r)|
  {
    hide TagOf, LevelOf, SizeField, U32;
    HeaderFields(r.tag, r.level, |r.payload|);
    var header := r.tag + r.level * 0x400 + |r.payload| * 0x10_0000;
    var data := Pack(r) + rest;
    assert data[0..4] == U32(header);
    Read32(data, 0, header);
    assert data[4..4 + |r.payload|] == r.payload;
  }

  lemma {:induction false} PackedLong(r: Record, rest: Bytes)
    requires r.raw.None? && Packable(r) && |r.payload| >= LONG
    ensures var first := FirstRecord(Pack(r) + rest);
            first.Some? && Same(first.value, r) && |first.value.raw.value| == |Pack(r)|
  {
    hide TagOf, LevelOf, SizeField, U32;
    HeaderFields(r.tag, r.level, LONG);
    var header := r.tag + r.level * 0x400 + LONG * 0x10_0000;
    var data := Pack(r) + rest;
    assert data[0..4] == U32(header);
    Read32(data, 0, header);
    assert data[4..8] == U32(|r.payload|);
    Read32(data, 4, |r.payload|);
    assert data[8..8 + |r.payload|] == r.payload;
  }

  /** A whole record at the front is found whatever follows it. */
  lemma {:induction false} FirstOfMore(raw: Bytes, rest: Bytes)
    requires FirstRecord(raw).Some? && FirstRecord(raw).value.raw == Some(raw)
    ensures FirstRecord(raw + rest) == FirstRecord(raw)
  {
    var data := raw + rest;
    var header := Get32(raw, 0);
    assert Get32(data, 0) == header;
    var head := if SizeField(header) == LONG then 8 else 4;
    if head == 8 { assert Get32(data, 4) == Get32(raw, 4); }
    assert data[head..|raw|] == raw[head..] && data[..|raw|] == raw == raw[..|raw|];
  }

  lemma {:induction false} PackedFirst(r: Record, rest: Bytes)
    requires Faithful(r)
    ensures var first := FirstRecord(Pack(r) + rest);
            first.Some? && Same(first.value, r) && |first.value.raw.value| == |Pack(r)| && Pack(r) != []
  {
    hide FirstRecord;
    if r.raw.Some? {
      FirstOfMore(r.raw.value, rest);
    } else if |r.payload| < LONG {
      PackedShort(r, rest);
    } else {
      PackedLong(r, rest);
    }
  }

  /** Changed and unchanged records, packed and read again, are the same records: also across the switch to long headers. */
  lemma {:induction false} RecordsRoundTrip(records: seq<Record>)
    requires forall i :: 0 <= i < |records| ==> Faithful(records[i])
    ensures forall i :: 0 <= i < |records| ==> Packable(records[i])
    ensures var again := RecordsOf(PackAll(records));
            again.Some? && |again.value| == |records| && forall i :: 0 <= i < |records| ==> Same(again.value[i], records[i])
  {
    hide FirstRecord, Pack, Packable, Same;
    assert forall i :: 0 <= i < |records| ==> Packable(records[i]) by { FaithfulPackable(records); }
    if records != [] {
      var rest := PackAll(records[1..]);
      RecordsRoundTrip(records[1..]);
      assert Faithful(records[0]);
      PackedFirst(records[0], rest);
      var data := Pack(records[0]) + rest;
      assert data[|Pack(records[0])|..] == rest;
    }
  }

  lemma {:induction false} FaithfulPackable(records: seq<Record>)
    requires forall i :: 0 <= i < |records| ==> Faithful(records[i])
    ensures forall i :: 0 <= i < |records| ==> Packable(records[i])
  {
  }

  /** Parsing loses nothing: every record is faithful, and their bytes make up the stream. */
  lemma {:induction false} ParsingPreserves(data: Bytes)
    requires RecordsOf(data).Some?
    ensures var records := RecordsOf(data).value;
            && (forall i :: 0 <= i < |records| ==> Faithful(records[i]) && Packable(records[i]) && records[i].raw.Some?)
            && PackAll(records) == data
  {
    hide FirstRecord;
    if data != [] {
      var r := FirstRecord(data).value;
      var n := |r.raw.value|;
      FirstIsWhole(data);
      ParsingPreserves(data[n..]);
      var rest := RecordsOf(data[n..]).value;
      assert ([r] + rest)[1..] == rest && ([r] + rest)[0] == r;
      assert data == data[..n] + data[n..];
    }
  }

  lemma {:induction false} FirstIsWhole(data: Bytes)
    requires FirstRecord(data).Some?
    ensures Faithful(FirstRecord(data).value)
  {
    var r := FirstRecord(data).value;
    var raw := r.raw.value;
    var header := Get32(data, 0);
    assert Get32(raw, 0) == header;
    var head := if SizeField(header) == LONG then 8 else 4;
    if head == 8 { assert Get32(raw, 4) == Get32(data, 4); }
    assert raw[head..] == data[head..|raw|];
    assert raw[..|raw|] == raw;
  }
}
