/** Sibling order by code points against the order of [MS-CFB] section 2.6.4, by UTF-16 code units (_cfb.py `_key`). */
module CfbNameOrder {
  import opened CfbFormat
  import opened CfbEntry

  // ---------------------------------------------------------------- code units

  /** The UTF-16 code units of a character. */
  function UnitsOfChar(c: char): (units: seq<nat>)
    ensures |units| == 1 || |units| == 2
  {
    var v := c as nat;
    if v < 0x1_0000 then [v] else [0xD800 + (v - 0x1_0000) / 0x400, 0xDC00 + (v - 0x1_0000) % 0x400]
  }

  function UnitsOf(text: string): seq<nat> {
    if text == "" then [] else UnitsOfChar(text[0]) + UnitsOf(text[1..])
  }

  /** They are the 16-bit words of the encoded text. */
  lemma {:induction false} UnitsAreEncoded(text: string)
    ensures |Encode(text)| == 2 * |UnitsOf(text)|
    ensures forall i :: 0 <= i < |UnitsOf(text)| ==> Get16(Encode(text), 2 * i) == UnitsOf(text)[i]
  {
    if text != "" {
      UnitsAreEncoded(text[1..]);
      var head, tail, units := EncodeChar(text[0]), Encode(text[1..]), UnitsOfChar(text[0]);
      EncodedChar(text[0]);
      forall i | 0 <= i < |UnitsOf(text)|
        ensures Get16(Encode(text), 2 * i) == UnitsOf(text)[i]
      {
        if i < |units| {
          assert Get16(head, 2 * i) == units[i];
        } else {
          assert Get16(tail, 2 * (i - |units|)) == UnitsOf(text[1..])[i - |units|];
        }
      }
    }
  }

  lemma {:induction false} EncodedChar(c: char)
    ensures |EncodeChar(c)| == 2 * |UnitsOfChar(c)|
    ensures forall i :: 0 <= i < |UnitsOfChar(c)| ==> Get16(EncodeChar(c), 2 * i) == UnitsOfChar(c)[i]
  {
    var v, raw := c as nat, EncodeChar(c);
    if v < 0x1_0000 {
      assert raw[0..2] == U16(v);
      Read16(raw, 0, v);
    } else {
      var hi, lo := 0xD800 + (v - 0x1_0000) / 0x400, 0xDC00 + (v - 0x1_0000) % 0x400;
      assert raw[0..2] == U16(hi) && raw[2..2 + 2] == U16(lo);
      Read16(raw, 0, hi);
      Read16(raw, 2, lo);
    }
  }

  // ---------------------------------------------------------------- the promised order

  predicate UnitsLeq(a: seq<nat>, b: seq<nat>) {
    a == [] || (b != [] && (a[0] < b[0] || (a[0] == b[0] && UnitsLeq(a[1..], b[1..]))))
  }

  /** Shorter UTF-16 form first, then upper-cased text by code unit. */
  predicate UnitKeyLeq(upper: string -> string, a: string, b: string) {
    var m, n := |Encode(a)|, |Encode(b)|;
    m < n || (m == n && UnitsLeq(UnitsOf(upper(a)), UnitsOf(upper(b))))
  }

  /** One character is beyond the basic plane and the other in its part behind the surrogates. */
  predicate Astray(c: char, d: char) {
    c as nat >= 0x1_0000 && 0xE000 <= d as nat < 0x1_0000
  }

  /** Where the texts first differ, they differ in such a pair. */
  predicate Clash(a: string, b: string) {
    a != "" && b != "" && if a[0] == b[0] then Clash(a[1..], b[1..]) else Astray(a[0], b[0]) || Astray(b[0], a[0])
  }

  /** The names are equally long and clash in upper case. */
  predicate KeyClash(upper: string -> string, a: string, b: string) {
    |Encode(a)| == |Encode(b)| && Clash(upper(a), upper(b))
  }

  lemma {:induction false} UnitsLeqAppend(p: seq<nat>, a: seq<nat>, b: seq<nat>)
    ensures UnitsLeq(p + a, p + b) <==> UnitsLeq(a, b)
  {
    if p == [] {
      assert p + a == a && p + b == b;
    } else {
      UnitsLeqAppend(p[1..], a, b);
      assert (p + a)[1..] == p[1..] + a && (p + b)[1..] == p[1..] + b;
    }
  }

  /** On texts the two orders agree exactly if the texts do not clash. */
  lemma {:induction false} OrdersAgree(a: string, b: string)
    ensures (TextLeq(a, b) <==> UnitsLeq(UnitsOf(a), UnitsOf(b))) <==> !Clash(a, b)
  {
    if a != "" && b != "" {
      if a[0] == b[0] {
        OrdersAgree(a[1..], b[1..]);
        UnitsLeqAppend(UnitsOfChar(a[0]), UnitsOf(a[1..]), UnitsOf(b[1..]));
      } else {
        FirstUnits(a[0], b[0], UnitsOf(a[1..]), UnitsOf(b[1..]));
      }
    }
  }

  /** Two different characters decide by their code units, and so the other way round exactly if they are an odd pair. */
  lemma {:induction false} FirstUnits(c: char, d: char, a: seq<nat>, b: seq<nat>)
    requires c != d
    ensures UnitsLeq(UnitsOfChar(c) + a, UnitsOfChar(d) + b)
       <==> if Astray(c, d) || Astray(d, c) then d < c else c < d
  {
    var x, y := UnitsOfChar(c) + a, UnitsOfChar(d) + b;
    if c as nat >= 0x1_0000 && d as nat >= 0x1_0000 {
      var m, n := c as nat - 0x1_0000, d as nat - 0x1_0000;
      assert m == m / 0x400 * 0x400 + m % 0x400 && n == n / 0x400 * 0x400 + n % 0x400;
      assert x[1..][0] == x[1] && y[1..][0] == y[1];
    }
  }

  /** The keys of two names agree with the promised order exactly if the names do not clash. */
  lemma {:induction false} KeysAgree(upper: string -> string, a: string, b: string)
    ensures (KeyLeq(upper, a, b) <==> UnitKeyLeq(upper, a, b)) <==> !KeyClash(upper, a, b)
  {
    OrdersAgree(upper(a), upper(b));
  }

  // ---------------------------------------------------------------- both are orders

  lemma {:induction false} TextLeqTrans(a: string, b: string, c: string)
    requires TextLeq(a, b) && TextLeq(b, c)
    ensures TextLeq(a, c)
  {
    if a != "" && a[0] == b[0] && b[0] == c[0] { TextLeqTrans(a[1..], b[1..], c[1..]); }
  }

  lemma {:induction false} UnitsLeqTrans(a: seq<nat>, b: seq<nat>, c: seq<nat>)
    requires UnitsLeq(a, b) && UnitsLeq(b, c)
    ensures UnitsLeq(a, c)
  {
    if a != [] && a[0] == b[0] && b[0] == c[0] { UnitsLeqTrans(a[1..], b[1..], c[1..]); }
  }

  lemma {:induction false} KeysTrans(upper: string -> string, a: string, b: string, c: string)
    ensures KeyLeq(upper, a, b) && KeyLeq(upper, b, c) ==> KeyLeq(upper, a, c)
    ensures UnitKeyLeq(upper, a, b) && UnitKeyLeq(upper, b, c) ==> UnitKeyLeq(upper, a, c)
  {
    if KeyLeq(upper, a, b) && KeyLeq(upper, b, c) && |Encode(a)| == |Encode(c)| {
      TextLeqTrans(upper(a), upper(b), upper(c));
    }
    if UnitKeyLeq(upper, a, b) && UnitKeyLeq(upper, b, c) && |Encode(a)| == |Encode(c)| {
      UnitsLeqTrans(UnitsOf(upper(a)), UnitsOf(upper(b)), UnitsOf(upper(c)));
    }
  }

  lemma {:induction false} ClashSymmetric(a: string, b: string)
    ensures Clash(a, b) <==> Clash(b, a)
    ensures !Clash(a, a)
    decreases |a|
  {
    if a != "" {
      ClashSymmetric(a[1..], if b == "" then "" else b[1..]);
    }
  }

  // ---------------------------------------------------------------- sibling lists

  /** Neighbours are in the promised order. */
  ghost predicate InUnitOrder(upper: string -> string, forest: seq<Entry>, order: seq<nat>)
    requires forall i :: 0 <= i < |order| ==> order[i] < |forest|
  {
    forall i, j :: 0 <= i && j == i + 1 && j < |order| ==> UnitKeyLeq(upper, forest[order[i]].name, forest[order[j]].name)
  }

  /** No two names of the forest clash. */
  ghost predicate NoClash(upper: string -> string, forest: seq<Entry>) {
    forall i, j :: 0 <= i < |forest| && 0 <= j < |forest| ==> !KeyClash(upper, forest[i].name, forest[j].name)
  }

  /** What holds of neighbours holds of any two. */
  lemma {:induction false} FarApart(upper: string -> string, forest: seq<Entry>, order: seq<nat>, i: nat, j: nat)
    requires i < j < |order| && forall k :: 0 <= k < |order| ==> order[k] < |forest|
    ensures InKeyOrder(upper, forest, order) ==> KeyLeq(upper, forest[order[i]].name, forest[order[j]].name)
    ensures InUnitOrder(upper, forest, order) ==> UnitKeyLeq(upper, forest[order[i]].name, forest[order[j]].name)
    decreases j - i
  {
    hide KeyLeq, UnitKeyLeq;
    if i + 1 < j {
      FarApart(upper, forest, order, i, j - 1);
      KeysTrans(upper, forest[order[i]].name, forest[order[j - 1]].name, forest[order[j]].name);
    }
  }

  /** Siblings are written in the order of [MS-CFB] section 2.6.4 exactly if no two of their names clash. */
  lemma {:induction false} SortedByUnits(upper: string -> string, forest: seq<Entry>)
    ensures InUnitOrder(upper, forest, Sorted(upper, forest)) <==> NoClash(upper, forest)
  {
    var order := Sorted(upper, forest);
    hide KeyLeq, UnitKeyLeq, KeyClash, SortedUpto;
    SortedIsInOrder(upper, forest, |forest|);
    SortedIsPermutation(upper, forest, |forest|);
    if NoClash(upper, forest) {
      forall i, j | 0 <= i && j == i + 1 && j < |order|
        ensures UnitKeyLeq(upper, forest[order[i]].name, forest[order[j]].name)
      {
        KeysAgree(upper, forest[order[i]].name, forest[order[j]].name);
      }
    } else {
      var a: nat, b: nat :| a < |forest| && b < |forest| && KeyClash(upper, forest[a].name, forest[b].name);
      assert a in order && b in order;
      var i: nat :| i < |order| && order[i] == a;
      var j: nat :| j < |order| && order[j] == b;
      ClashBreaksOrder(upper, forest, order, i, j);
    }
  }

  lemma {:induction false} ClashBreaksOrder(upper: string -> string, forest: seq<Entry>, order: seq<nat>, i: nat, j: nat)
    requires i < |order| && j < |order| && forall k :: 0 <= k < |order| ==> order[k] < |forest|
    requires InKeyOrder(upper, forest, order) && KeyClash(upper, forest[order[i]].name, forest[order[j]].name)
    ensures !InUnitOrder(upper, forest, order)
  {
    ClashSymmetric(upper(forest[order[i]].name), upper(forest[order[j]].name));
    hide KeyLeq, UnitKeyLeq;
    var m, n := if i < j then i else j, if i < j then j else i;
    if m < n {
      FarApart(upper, forest, order, m, n);
      KeysAgree(upper, forest[order[m]].name, forest[order[n]].name);
    }
  }

  /** U+10000 and twice U+E000 are equally long in UTF-16 and come in opposite orders. */
  lemma {:induction false} OrdersDiffer()
    ensures var a, b, same := "\U{10000}", "\U{E000}\U{E000}", (s: string) => s;
            KeyLeq(same, b, a) && !UnitKeyLeq(same, b, a) && KeyClash(same, a, b)
  {
    var a, b, same := "\U{10000}", "\U{E000}\U{E000}", (s: string) => s;
    UnitsAreEncoded(a);
    UnitsAreEncoded(b);
    assert a[1..] == "" && b[1..] == "\U{E000}" && b[1..][1..] == "";
    assert UnitsOf(a) == [0xD800, 0xDC00] && UnitsOf(b) == [0xE000, 0xE000];
    assert Clash(a, b);
    ClashSymmetric(a, b);
    assert TextLeq(b, a) && !UnitsLeq(UnitsOf(b), UnitsOf(a));
  }
}
