/** Little-endian integers, sector arithmetic and UTF-16 names of a compound file (_cfb.py, [MS-CFB] section 2). */
module CfbFormat {
  import opened Base

  const MAX32: nat := 0xFFFF_FFFF
  const FREESECT: nat := 0xFFFF_FFFF
  const ENDOFCHAIN: nat := 0xFFFF_FFFE
  const FATSECT: nat := 0xFFFF_FFFD
  const DIFSECT: nat := 0xFFFF_FFFC
  const MAXREGSECT: nat := 0xFFFF_FFFA

  datatype CfbError =
    | NotCompound | BadHeader | OutsideFile | DifatLoop | BrokenChain | NoDirectory | TruncatedStream
    | TooDeep | BrokenTree | NoRoot | NameTooLong | OutOfRange

  // ---------------------------------------------------------------- integers

  function U16(n: nat): (bytes: seq<byte>)
    requires n < 0x1_0000
    ensures |bytes| == 2
  {
    [n % 0x100, n / 0x100]
  }

  /** `struct.pack("<I", n)`. */
  function U32(n: nat): (bytes: seq<byte>)
    requires n <= MAX32
    ensures |bytes| == 4
  {
    U16(n % 0x1_0000) + U16(n / 0x1_0000)
  }

  /** `struct.pack("<Q", n)`. */
  function U64(n: nat): (bytes: seq<byte>)
    requires n < 0x1_0000_0000_0000_0000
    ensures |bytes| == 8
  {
    U32(n % 0x1_0000_0000) + U32(n / 0x1_0000_0000)
  }

  function Get16(raw: seq<byte>, at: nat): (n: nat)
    requires at + 2 <= |raw|
    ensures n < 0x1_0000
  {
    raw[at] as nat + 0x100 * raw[at + 1] as nat
  }

  function Get32(raw: seq<byte>, at: nat): (n: nat)
    requires at + 4 <= |raw|
    ensures n <= MAX32
  {
    Get16(raw, at) + 0x1_0000 * Get16(raw, at + 2)
  }

  /** Reading back a 16-bit field that was laid down at `at`. */
  lemma {:induction false} Read16(raw: seq<byte>, at: nat, n: nat)
    requires n < 0x1_0000 && at + 2 <= |raw| && raw[at..at + 2] == U16(n)
    ensures Get16(raw, at) == n
  {
    assert raw[at] == raw[at..at + 2][0] && raw[at + 1] == raw[at..at + 2][1];
  }

  lemma {:induction false} Read32(raw: seq<byte>, at: nat, n: nat)
    requires n <= MAX32 && at + 4 <= |raw| && raw[at..at + 4] == U32(n)
    ensures Get32(raw, at) == n
  {
    var four := raw[at..at + 4];
    assert four == U16(n % 0x1_0000) + U16(n / 0x1_0000);
    assert raw[at..at + 2] == four[..2] == U16(n % 0x1_0000);
    assert raw[at + 2..at + 2 + 2] == four[2..] == U16(n / 0x1_0000);
    Read16(raw, at, n % 0x1_0000);
    Read16(raw, at + 2, n / 0x1_0000);
  }

  /** A 64-bit field is read as its low and its high half. */
  lemma {:induction false} Read64(raw: seq<byte>, at: nat, n: nat)
    requires n < 0x1_0000_0000_0000_0000 && at + 8 <= |raw| && raw[at..at + 8] == U64(n)
    ensures Get32(raw, at) == n % 0x1_0000_0000 && Get32(raw, at + 4) == n / 0x1_0000_0000
  {
    var eight := raw[at..at + 8];
    assert raw[at..at + 4] == eight[..4] == U32(n % 0x1_0000_0000);
    assert raw[at + 4..at + 4 + 4] == eight[4..] == U32(n / 0x1_0000_0000);
    Read32(raw, at, n % 0x1_0000_0000);
    Read32(raw, at + 4, n / 0x1_0000_0000);
  }

  // ---------------------------------------------------------------- tables of 32-bit words

  /** Every word fits four bytes. */
  predicate Packable(words: seq<nat>) {
    forall i :: 0 <= i < |words| ==> words[i] <= MAX32
  }

  /** One byte of a word. */
  function ByteOf(w: nat, k: nat): byte
    requires w <= MAX32 && k < 4
  {
    U32(w)[k]
  }

  /** `struct.pack(f"<{n}I", *words)`. */
  function Words(words: seq<nat>): (bytes: seq<byte>)
    requires Packable(words)
    ensures |bytes| == 4 * |words|
  {
    seq(4 * |words|, i requires 0 <= i < 4 * |words| => ByteOf(words[i / 4], i % 4))
  }

  /** `struct.unpack(f"<{n}I", raw)`. */
  function WordsOf(raw: seq<byte>): (words: seq<nat>)
    ensures |words| == |raw| / 4
  {
    seq(|raw| / 4, i requires 0 <= i < |raw| / 4 => Get32(raw, 4 * i))
  }

  lemma {:induction false} WordAt(words: seq<nat>, i: nat)
    requires Packable(words) && i < |words|
    ensures Words(words)[4 * i..4 * i + 4] == U32(words[i])
  {
    var b := Words(words);
    forall k | 0 <= k < 4
      ensures b[4 * i + k] == U32(words[i])[k]
    {
      assert (4 * i + k) / 4 == i && (4 * i + k) % 4 == k;
    }
  }

  /** Unpacking what was packed. */
  lemma {:induction false} WordsRoundTrip(words: seq<nat>)
    requires Packable(words)
    ensures WordsOf(Words(words)) == words
  {
    forall i | 0 <= i < |words|
      ensures Get32(Words(words), 4 * i) == words[i]
    {
      WordAt(words, i);
      Read32(Words(words), 4 * i, words[i]);
    }
  }

  // ---------------------------------------------------------------- blocks of one size

  ghost predicate AllOf(blocks: seq<seq<byte>>, size: nat) {
    forall i :: 0 <= i < |blocks| ==> |blocks[i]| == size
  }

  /** `[raw[i:i + size] for i in range(0, len(raw) - size + 1, size)]`: the whole blocks. */
  function Chop(raw: seq<byte>, size: nat): (blocks: seq<seq<byte>>)
    requires size > 0
    ensures AllOf(blocks, size)
  {
    if |raw| < size then [] else [raw[..size]] + Chop(raw[size..], size)
  }

  lemma {:induction false} JoinLength(blocks: seq<seq<byte>>, size: nat)
    requires AllOf(blocks, size)
    ensures |Join(blocks)| == size * |blocks|
  {
    if blocks != [] {
      JoinLength(blocks[1..], size);
      assert size * |blocks| == size + size * (|blocks| - 1);
    }
  }

  /** Cutting into blocks undoes joining them. */
  lemma {:induction false} ChopJoin(blocks: seq<seq<byte>>, size: nat)
    requires size > 0 && AllOf(blocks, size)
    ensures Chop(Join(blocks), size) == blocks
  {
    if blocks != [] {
      ChopJoin(blocks[1..], size);
      assert Join(blocks)[..size] == blocks[0] && Join(blocks)[size..] == Join(blocks[1..]);
    }
  }

  // ---------------------------------------------------------------- padding

  function Zeros(n: nat): (bytes: seq<byte>)
    ensures |bytes| == n
  {
    seq(n, _ => 0)
  }

  /** `-(-size // unit)`. */
  function CeilDiv(size: nat, unit: nat): (n: nat)
    requires unit > 0
  {
    (size + unit - 1) / unit
  }

  lemma {:induction false} CeilDivBounds(size: nat, unit: nat)
    requires unit > 0
    ensures var n := CeilDiv(size, unit);
            size <= n * unit < size + unit && (size > 0 ==> n > 0) && (size == 0 ==> n == 0)
  {
    var n := CeilDiv(size, unit);
    assert size + unit - 1 == n * unit + (size + unit - 1) % unit;
    assert 0 * unit == 0;
    if size == 0 {
      assert (unit - 1) / unit == 0;
    }
  }

  /** The bytes filled up with zeros to whole sectors. */
  function Pad(data: seq<byte>, unit: nat): (padded: seq<byte>)
    requires unit > 0
    ensures |padded| == CeilDiv(|data|, unit) * unit
    ensures |data| <= |padded| && padded[..|data|] == data
  {
    CeilDivBounds(|data|, unit);
    data + Zeros(CeilDiv(|data|, unit) * unit - |data|)
  }

  /** `data[:n].ljust(n, b"\0")`. */
  function Fit(data: seq<byte>, n: nat): (fitted: seq<byte>)
    ensures |fitted| == n
    ensures |data| == n ==> fitted == data
  {
    if |data| >= n then data[..n] else data + Zeros(n - |data|)
  }

  // ---------------------------------------------------------------- UTF-16 names

  /** The bytes of one character in UTF-16 (little-endian). */
  function EncodeChar(c: char): (bytes: seq<byte>)
    ensures |bytes| == 2 || |bytes| == 4
  {
    var v := c as int;
    if v < 0x1_0000 then U16(v)
    else U16(0xD800 + (v - 0x1_0000) / 0x400) + U16(0xDC00 + (v - 0x1_0000) % 0x400)
  }

  /** `name.encode("utf-16-le")`. */
  function Encode(name: string): seq<byte> {
    if name == "" then [] else EncodeChar(name[0]) + Encode(name[1..])
  }

  const REPLACEMENT: char := '\U{FFFD}'

  /** `raw.decode("utf-16-le", errors="replace")`: unpaired surrogates and a cut-off tail become U+FFFD. */
  function Decode(raw: seq<byte>): string {
    if |raw| == 0 then ""
    else if |raw| == 1 then [REPLACEMENT]
    else
      var u := Get16(raw, 0);
      if u < 0xD800 || 0xE000 <= u then [u as char] + Decode(raw[2..])
      else if 0xDC00 <= u then [REPLACEMENT] + Decode(raw[2..])
      else if |raw| < 4 then [REPLACEMENT]
      else
        var low := Get16(raw, 2);
        if 0xDC00 <= low < 0xE000 then
          [(0x1_0000 + (u - 0xD800) * 0x400 + (low - 0xDC00)) as char] + Decode(raw[4..])
        else [REPLACEMENT] + Decode(raw[2..])
  }

  /** Every name survives the trip through its UTF-16 form. */
  lemma {:induction false} NameRoundTrip(name: string)
    ensures Decode(Encode(name)) == name
  {
    if name != "" {
      NameRoundTrip(name[1..]);
      var head, tail := EncodeChar(name[0]), Encode(name[1..]);
      var raw := head + tail;
      assert raw[|head|..] == tail;
      var v := name[0] as int;
      if v < 0x1_0000 {
        assert raw[0..2] == U16(v);
        Read16(raw, 0, v);
      } else {
        var hi, lo := 0xD800 + (v - 0x1_0000) / 0x400, 0xDC00 + (v - 0x1_0000) % 0x400;
        assert raw[0..2] == U16(hi) && raw[2..2 + 2] == U16(lo);
        Read16(raw, 0, hi);
        Read16(raw, 2, lo);
      }
      assert name == [name[0]] + name[1..];
    }
  }
}
