/** The numbers at the front of a compound file, and the size of a stream, byte by byte (_cfb.py `read`). */
module CfbHeader {
  import opened Base
  import opened CfbFormat
  import opened CfbRead

  /** A number whose first byte counts least. */
  ghost function Little(bytes: Bytes): nat {
    if bytes == [] then 0 else bytes[0] as nat + 256 * Little(bytes[1..])
  }

  lemma {:induction false} LittleJoin(a: Bytes, b: Bytes)
    requires |a| == 2 || |a| == 4
    ensures Little(a + b) == Little(a) + (if |a| == 2 then 65536 else 65536 * 65536) * Little(b)
  {
    if |a| == 2 {
      assert a == [a[0]] + [a[1]];
      assert a[1..] == [a[1]] && (a + b)[1..] == [a[1]] + b && ([a[1]] + b)[1..] == b;
      assert Little([a[1]]) == a[1] as nat;
    } else {
      var c, d := a[..2], a[2..];
      assert a == c + d;
      Assoc(c, d, b);
      LittleJoin(c, d + b);
      LittleJoin(d, b);
      LittleJoin(c, d);
    }
  }

  lemma {:induction false} Get16IsLittle(raw: Bytes, at: nat)
    requires at + 2 <= |raw|
    ensures Get16(raw, at) == Little(raw[at..at + 2])
  {
    var two := raw[at..at + 2];
    assert two[1..] == [raw[at + 1]] && two[1..][1..] == [];
    assert Little(two[1..]) == raw[at + 1] as nat;
  }

  lemma {:induction false} Get32IsLittle(raw: Bytes, at: nat)
    requires at + 4 <= |raw|
    ensures Get32(raw, at) == Little(raw[at..at + 4])
  {
    Get16IsLittle(raw, at);
    Get16IsLittle(raw, at + 2);
    assert raw[at..at + 4] == raw[at..at + 2] + raw[at + 2..at + 4];
    LittleJoin(raw[at..at + 2], raw[at + 2..at + 4]);
  }

  /** The size of a stream is the number in the last eight bytes of its record; in version 3 only in the first four of them. */
  lemma {:induction false} SizeSays(major: nat, record: Bytes)
    requires |record| == 128
    ensures SizeOf(major, record) == Little(if major == 3 then record[120..124] else record[120..128])
  {
    Get32IsLittle(record, 0x78);
    Get32IsLittle(record, 0x7C);
    assert record[120..128] == record[120..124] + record[124..128];
    LittleJoin(record[120..124], record[124..128]);
  }

  /** A character of the basic plane is written as its number, any other as two surrogates that hold its upper and lower ten
      bits; the first byte counts least. */
  lemma {:induction false} EncodeSays(c: char)
    ensures var bytes, v := EncodeChar(c), c as int;
            if v < 65536 then |bytes| == 2 && Get16(bytes, 0) == v
            else
              && |bytes| == 4 && 0xD800 <= Get16(bytes, 0) < 0xDC00 <= Get16(bytes, 2) < 0xE000
              && (Get16(bytes, 0) as int - 0xD800) * 1024 + Get16(bytes, 2) as int - 0xDC00 == v - 65536
  {
  }

  /** What is read back from any bytes: surrogates in pairs give a character, every other one and a byte left over U+FFFD. */
  lemma {:induction false} DecodeSays(raw: Bytes)
    ensures |raw| == 1 ==> Decode(raw) == ['\U{FFFD}']
    ensures |raw| >= 2 ==>
              var u := Get16(raw, 0);
              if 0xD800 <= u < 0xDC00 && |raw| >= 4 && 0xDC00 <= Get16(raw, 2) < 0xE000 then
                var v: int := 65536 + (u - 0xD800) * 1024 + Get16(raw, 2) - 0xDC00;
                0x1_0000 <= v < 0x11_0000 && Decode(raw) == [v as char] + Decode(raw[4..])
              else if 0xD800 <= u < 0xDC00 && |raw| < 4 then Decode(raw) == ['\U{FFFD}']
              else Decode(raw) == [if 0xD800 <= u < 0xE000 then '\U{FFFD}' else u as char] + Decode(raw[2..])
  {
  }

  /** The name of an entry: as many bytes as the length says, less the two of its end, but never more than 62. */
  lemma {:induction false} NameSays(record: Bytes)
    requires |record| == 128
    ensures var length := Little(record[64..66]);
            NameOf(record) == Decode(record[..if length < 2 then 0 else if length <= 64 then length - 2 else 62])
  {
    Get16IsLittle(record, 64);
  }

  /** What a file that is read begins with, apart from the numbers that are not looked at. */
  ghost predicate Begins(raw: Bytes, shift: byte) {
    && |raw| >= 512 && raw[..8] == [0xD0, 0xCF, 0x11, 0xE0, 0xA1, 0xB1, 0x1A, 0xE1]
    && raw[28..34] == [0xFE, 0xFF, shift, 0, 6, 0]
  }

  lemma {:induction false} FieldIs(raw: Bytes, at: nat, n: nat)
    requires at + 2 <= |raw| && n < 65536
    ensures Get16(raw, at) == n <==> raw[at..at + 2] == [n % 256, n / 256]
  {
    assert raw[at..at + 2] == [raw[at], raw[at + 1]];
  }

  /** A file is read with sectors of 512 or of 4096 bytes, whichever the shift in its header says, and no other file is. */
  lemma {:induction false} HeaderExactly(raw: Bytes)
    ensures Header(raw) == Ok(512) <==> Begins(raw, 9)
    ensures Header(raw) == Ok(4096) <==> Begins(raw, 12)
    ensures Header(raw).Ok? ==> Header(raw).value == 512 || Header(raw).value == 4096
    ensures Header(raw) == Err(NotCompound) <==>
            |raw| < 512 || raw[..8] != [0xD0, 0xCF, 0x11, 0xE0, 0xA1, 0xB1, 0x1A, 0xE1]
  {
    if |raw| >= 512 {
      FieldIs(raw, 28, 0xFFFE);
      FieldIs(raw, 30, 9);
      FieldIs(raw, 30, 12);
      FieldIs(raw, 32, 6);
      Parts(raw, 9);
      Parts(raw, 12);
    }
  }

  lemma {:induction false} Parts(raw: Bytes, shift: byte)
    requires |raw| >= 512
    ensures raw[28..34] == [0xFE, 0xFF, shift, 0, 6, 0] <==>
            raw[28..30] == [0xFE, 0xFF] && raw[30..32] == [shift, 0] && raw[32..34] == [6, 0]
  {
    assert raw[28..34] == [raw[28], raw[29], raw[30], raw[31], raw[32], raw[33]];
    assert raw[28..30] == [raw[28], raw[29]] && raw[30..32] == [raw[30], raw[31]] && raw[32..34] == [raw[32], raw[33]];
  }
}
