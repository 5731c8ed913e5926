/** The numbers of a Hangul document, bit by bit (_hwp.py `_units`, `_records`, `_pack`). */
module HwpNumbers {
  import opened Base
  import opened CfbFormat
  import opened HwpUnits
  import opened HwpRewrite
  import opened HwpRecords
  import opened HwpParagraph
  import HwpTables

  // ---------------------------------------------------------------- paragraph text

  /** Which control codes are eight code units long, and which of them show as a tab, a line end, a hyphen or a space. */
  lemma {:induction false} ControlsSay(code: wchar)
    ensures Width(code) == 8 <==> code in {1, 2, 3, 4, 5, 6, 7, 8, 9, 11, 12, 14, 15, 16, 17, 18, 19, 20, 21, 22, 23}
    ensures Width(code) == 1 || Width(code) == 8
    ensures Visible(code) == if code == 9 then ['\t' as int] else if code == 10 || code == 13 then ['\n' as int]
                             else if code == 24 then ['-' as int] else if code == 30 || code == 31 then [' ' as int] else []
  {
  }

  /** The first byte of a code unit counts least. */
  lemma {:induction false} BytesSay(payload: seq<byte>, wide: Wide, k: nat)
    requires |payload| % 2 == 0
    ensures 2 * k < |payload| ==>
              k < |WideOf(payload)| && WideOf(payload)[k] == payload[2 * k] as nat + 256 * payload[2 * k + 1] as nat
    ensures k < |wide| ==> BytesOf(wide)[2 * k] == wide[k] % 256 && BytesOf(wide)[2 * k + 1] == wide[k] / 256
    ensures |BytesOf(wide)| == 2 * |wide|
  {
  }

  /** A character of the basic plane is its own code unit; of any other, 0x10000 is taken off and the upper and lower ten bits
      go into two surrogates. */
  lemma {:induction false} EncodeSays(p: point)
    ensures var raw := EncodePoint(p);
            if p < 65536 then raw == [p]
            else |raw| == 2 && 0xD800 <= raw[0] < 0xDC00 <= raw[1] < 0xE000
                 && (raw[0] as int - 0xD800) * 1024 + raw[1] as int - 0xDC00 == p - 65536
  {
  }

  // ---------------------------------------------------------------- records

  /** A record begins with 32 bits: ten of the tag, ten of the level and twelve of the length; 4095 there says that the length
      follows in another 32. It is cut off exactly if it is longer than what is there. */
  lemma {:induction false} FirstRecordSays(data: Bytes)
    ensures |data| < 4 ==> FirstRecord(data).None?
    ensures |data| >= 4 ==>
              var word := Get32(data, 0);
              if word / 1_048_576 == 4095 && |data| < 8 then FirstRecord(data).None?
              else
                var head := if word / 1_048_576 == 4095 then 8 else 4;
                var length := if word / 1_048_576 == 4095 then Get32(data, 4) else word / 1_048_576;
                && (FirstRecord(data).None? <==> head + length > |data|)
                && (FirstRecord(data).Some? ==>
                      var r := FirstRecord(data).value;
                      && r.tag == word % 1024 && r.level == word / 1024 % 1024 && r.raw == Some(data[..head + length])
                      && r.payload == data[head..head + length])
  {
  }

  /** How a changed record is written. */
  lemma {:induction false} PackSays(r: Record)
    requires HwpRecords.Packable(r) && r.raw.None?
    ensures var out, n := Pack(r), |r.payload|;
            var head := if n >= 4095 then 8 else 4;
            && |out| == head + n && out[head..] == r.payload
            && Get32(out, 0) == r.tag + 1024 * r.level + 1_048_576 * (if n >= 4095 then 4095 else n)
            && (n >= 4095 ==> Get32(out, 4) == n)
  {
    var out, n := Pack(r), |r.payload|;
    var word := r.tag + 1024 * r.level + 1_048_576 * (if n >= 4095 then 4095 else n);
    assert word <= MAX32;
    hide U32;
    assert out[0..4] == U32(word);
    Read32(out, 0, word);
    if n >= 4095 {
      assert out[4..8] == U32(n);
      Read32(out, 4, n);
    }
  }

  // ---------------------------------------------------------------- the side tables

  /** What fits the fields of a paragraph: a text length, places and ranges below 2^32, a number of shapes below 2^16. */
  lemma {:induction false} FieldsSay(header: Bytes, total: nat, shapes: Option<seq<HwpTables.Shape>>, ranges: seq<HwpTables.Range>)
    ensures Fields(header, total, shapes, ranges) <==>
            && total < 4_294_967_296
            && (shapes.Some? && |header| >= 14 ==> |shapes.value| < 65_536)
            && (shapes.Some? ==> forall k :: 0 <= k < |shapes.value| ==> shapes.value[k].pos < 4_294_967_296)
            && (forall k :: 0 <= k < |ranges| ==> ranges[k].start < 4_294_967_296 && ranges[k].end < 4_294_967_296)
  {
  }
}
