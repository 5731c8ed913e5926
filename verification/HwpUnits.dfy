/** Paragraph text of a Hangul document (_hwp.py `_units`, `_paragraph_text`): ordinary characters and control codes. */
module HwpUnits {
  import opened Base

  /** One UTF-16 code unit (WCHAR). */
  type wchar = w: nat | w < 0x1_0000
  type Wide = seq<wchar>

  datatype Unit = Unit(control: bool, raw: Wide, text: Text)

  /** Control codes that take eight code units; all others below 32 take one. */
  predicate WideControl(code: wchar) {
    1 <= code <= 9 || 11 <= code <= 12 || 14 <= code <= 23
  }

  function Width(code: wchar): (n: nat)
    ensures n == 1 || n == 8
  {
    if WideControl(code) then 8 else 1
  }

  /** The character a control code looks like when text is searched; most look like nothing. */
  function Visible(code: wchar): (text: Text)
    ensures |text| <= 1
  {
    if code == 9 then [9]
    else if code == 10 || code == 13 then [10]
    else if code == 24 then [45]
    else if code == 30 || code == 31 then [32]
    else []
  }

  predicate High(w: wchar) { 0xD800 <= w <= 0xDBFF }
  predicate Low(w: wchar) { 0xDC00 <= w <= 0xDFFF }

  /** The code point of a surrogate pair. */
  function Paired(high: wchar, low: wchar): point
    requires High(high) && Low(low)
  {
    0x1_0000 + (high - 0xD800) * 0x400 + (low - 0xDC00)
  }

  /** How many code units the ordinary character at the front takes. */
  function OrdinaryWidth(payload: Wide): (n: nat)
    requires payload != []
    ensures n == 1 || (n == 2 && 2 <= |payload| && High(payload[0]) && Low(payload[1]))
  {
    if 2 <= |payload| && High(payload[0]) && Low(payload[1]) then 2 else 1
  }

  /** The unit at the front of a paragraph; None when a control code is cut off. */
  function FirstUnit(payload: Wide): (u: Option<Unit>)
    requires payload != []
    ensures u.Some? ==> 0 < |u.value.raw| <= |payload| && u.value.raw == payload[..|u.value.raw|]
  {
    var code := payload[0];
    if code < 32 then
      if Width(code) > |payload| then None else Some(Unit(true, payload[..Width(code)], Visible(code)))
    else
      var n := OrdinaryWidth(payload);
      Some(Unit(false, payload[..n], [if n == 2 then Paired(payload[0], payload[1]) else code]))
  }

  /** The whole paragraph; None when a control code is cut off. */
  function UnitsOf(payload: Wide): Option<seq<Unit>> {
    if payload == [] then Some([])
    else match FirstUnit(payload)
      case None => None
      case Some(u) =>
        match UnitsOf(payload[|u.raw|..])
        case None => None
        case Some(rest) => Some([u] + rest)
  }

  /** The loop of `_units`. */
  method Units(payload: Wide) returns (r: Option<seq<Unit>>)
    ensures r == UnitsOf(payload)
  {
    var pos := 0;
    var units: seq<Unit> := [];
    assert payload[0..] == payload;
    if UnitsOf(payload).Some? { assert [] + UnitsOf(payload).value == UnitsOf(payload).value; }
    while pos < |payload|
      invariant pos <= |payload|
      invariant UnitsOf(payload) == match UnitsOf(payload[pos..]) case Some(rest) => Some(units + rest) case None => None
    {
      var u := FirstUnit(payload[pos..]);
      if u.None? { return None; }
      var n := |u.value.raw|;
      assert payload[pos..][n..] == payload[pos + n..];
      if UnitsOf(payload[pos + n..]).Some? {
        Assoc(units, [u.value], UnitsOf(payload[pos + n..]).value);
      }
      units := units + [u.value];
      pos := pos + n;
    }
    assert units + [] == units;
    return Some(units);
  }

  // ---------------------------------------------------------------- from and to bytes

  /** The little-endian code units of a payload of even length. */
  function WideOf(payload: seq<byte>): (wide: Wide)
    ensures |wide| == |payload| / 2
  {
    seq(|payload| / 2, i requires 0 <= i < |payload| / 2 => payload[2 * i] as nat + 0x100 * payload[2 * i + 1] as nat)
  }

  function BytesOf(wide: Wide): (payload: seq<byte>)
    ensures |payload| == 2 * |wide|
  {
    seq(2 * |wide|, i requires 0 <= i < 2 * |wide| => if i % 2 == 0 then wide[i / 2] % 0x100 else wide[i / 2] / 0x100)
  }

  lemma {:induction false} BytesRoundTrip(payload: seq<byte>, wide: Wide)
    ensures WideOf(BytesOf(wide)) == wide
    ensures |payload| % 2 == 0 ==> BytesOf(WideOf(payload)) == payload
  {
    var raw := BytesOf(wide);
    forall i | 0 <= i < |wide|
      ensures WideOf(raw)[i] == wide[i]
    {
      assert raw[2 * i] == wide[i] % 0x100 && raw[2 * i + 1] == wide[i] / 0x100;
    }
    if |payload| % 2 == 0 {
      forall i | 0 <= i < |payload|
        ensures BytesOf(WideOf(payload))[i] == payload[i]
      {
        assert WideOf(payload)[i / 2] == payload[2 * (i / 2)] as nat + 0x100 * payload[2 * (i / 2) + 1] as nat;
      }
    }
  }

  datatype UnitsError = OddLength | ControlCut

  /** `_units`: the units of a payload, or what is wrong with it. Together they are the payload. */
  method ReadUnits(payload: seq<byte>) returns (r: Result<seq<Unit>, UnitsError>)
    ensures r == Err(OddLength) <==> |payload| % 2 == 1
    ensures |payload| % 2 == 0 ==> (r == Err(ControlCut) <==> Split(WideOf(payload)).None?)
    ensures r.Ok? ==>
              && UnitsOf(WideOf(payload)) == Some(r.value) && AllFormed(r.value) && BytesOf(Raw(r.value)) == payload
              && Split(WideOf(payload)) == Some((Controls(r.value), Plain(r.value)))
  {
    hide *;
    if |payload| % 2 == 1 { return Err(OddLength); }
    var wide := WideOf(payload);
    UnitsAreThePayload(wide);
    UnitsSplit(wide);
    BytesRoundTrip(payload, wide);
    var units := Units(wide);
    match units {
      case None => return Err(ControlCut);
      case Some(us) => return Ok(us);
    }
  }

  // ---------------------------------------------------------------- well-formed units

  ghost predicate Ordinary(raw: Wide) {
    forall i :: 0 <= i < |raw| ==> raw[i] >= 32
  }

  /** What `_units` yields: control codes of their full width, ordinary characters free of control codes. */
  ghost predicate WellFormed(u: Unit) {
    && |u.raw| > 0
    && if u.control then u.raw[0] < 32 && |u.raw| == Width(u.raw[0]) && u.text == Visible(u.raw[0])
       else Ordinary(u.raw) && |u.text| == 1
  }

  ghost predicate AllFormed(units: seq<Unit>) {
    forall i :: 0 <= i < |units| ==> WellFormed(units[i])
  }

  function Raw(units: seq<Unit>): Wide {
    if units == [] then [] else units[0].raw + Raw(units[1..])
  }

  /** Nothing is lost: the units of a paragraph are well formed and make up the paragraph. */
  lemma {:induction false} UnitsAreThePayload(payload: Wide)
    ensures UnitsOf(payload).Some? ==> AllFormed(UnitsOf(payload).value) && Raw(UnitsOf(payload).value) == payload
  {
    if payload != [] && FirstUnit(payload).Some? {
      var u := FirstUnit(payload).value;
      assert WellFormed(u);
      hide FirstUnit, WellFormed;
      UnitsAreThePayload(payload[|u.raw|..]);
      assert payload == u.raw + payload[|u.raw|..];
    }
  }

  // ---------------------------------------------------------------- controls and ordinary code units

  /** The control codes in order, each with everything it carries. */
  function Controls(units: seq<Unit>): seq<Wide> {
    if units == [] then []
    else (if units[0].control then [units[0].raw] else []) + Controls(units[1..])
  }

  /** All other code units in order. */
  function Plain(units: seq<Unit>): Wide {
    if units == [] then []
    else (if units[0].control then [] else units[0].raw) + Plain(units[1..])
  }

  /** The paragraph read code unit by code unit: controls and ordinary code units. */
  function Split(payload: Wide): Option<(seq<Wide>, Wide)> {
    if payload == [] then Some(([], []))
    else if payload[0] < 32 then
      if Width(payload[0]) > |payload| then None
      else match Split(payload[Width(payload[0])..])
        case None => None
        case Some(rest) => Some(([payload[..Width(payload[0])]] + rest.0, rest.1))
    else match Split(payload[1..])
      case None => None
      case Some(rest) => Some((rest.0, [payload[0]] + rest.1))
  }

  lemma {:induction false} SplitOrdinary(raw: Wide, rest: Wide)
    requires Ordinary(raw)
    ensures Split(raw + rest) == match Split(rest) case None => None case Some(s) => Some((s.0, raw + s.1))
  {
    if raw == [] {
      assert raw + rest == rest;
      if Split(rest).Some? { assert [] + Split(rest).value.1 == Split(rest).value.1; }
    } else {
      SplitOrdinary(raw[1..], rest);
      assert (raw + rest)[1..] == raw[1..] + rest;
      if Split(rest).Some? {
        assert raw == [raw[0]] + raw[1..];
        Assoc([raw[0]], raw[1..], Split(rest).value.1);
      }
    }
  }

  lemma {:induction false} SplitControl(raw: Wide, rest: Wide)
    requires |raw| > 0 && raw[0] < 32 && |raw| == Width(raw[0])
    ensures Split(raw + rest) == match Split(rest) case None => None case Some(s) => Some(([raw] + s.0, s.1))
  {
    assert (raw + rest)[..|raw|] == raw && (raw + rest)[|raw|..] == rest;
  }

  lemma {:induction false} SplitSurrogates(payload: Wide)
    requires payload != [] && payload[0] >= 32
    ensures var n := OrdinaryWidth(payload);
            Split(payload) == match Split(payload[n..]) case None => None case Some(s) => Some((s.0, payload[..n] + s.1))
  {
    var n := OrdinaryWidth(payload);
    assert Ordinary(payload[..n]);
    SplitOrdinary(payload[..n], payload[n..]);
    assert payload == payload[..n] + payload[n..];
  }

  lemma {:induction false} UnitCons(u: Unit, rest: seq<Unit>)
    ensures Controls([u] + rest) == (if u.control then [u.raw] + Controls(rest) else Controls(rest))
    ensures Plain([u] + rest) == (if u.control then Plain(rest) else u.raw + Plain(rest))
    ensures Raw([u] + rest) == u.raw + Raw(rest)
  {
    assert ([u] + rest)[1..] == rest;
    assert [] + Controls(rest) == Controls(rest) && [] + Plain(rest) == Plain(rest);
  }

  /** `_units` finds exactly the controls and ordinary code units of a paragraph. */
  lemma {:induction false} UnitsSplit(payload: Wide)
    ensures Split(payload) == match UnitsOf(payload) case None => None case Some(us) => Some((Controls(us), Plain(us)))
  {
    if payload != [] && FirstUnit(payload).Some? {
      var u := FirstUnit(payload).value;
      var rest := payload[|u.raw|..];
      UnitsSplit(rest);
      if UnitsOf(rest).Some? { UnitCons(u, UnitsOf(rest).value); }
      if payload[0] >= 32 { SplitSurrogates(payload); }
    }
  }

  // ---------------------------------------------------------------- the searched text

  function TextLength(units: seq<Unit>): nat {
    if units == [] then 0 else TextLength(units[..|units| - 1]) + |units[|units| - 1].text|
  }

  /** `_paragraph_text`: the searched text, and for every character the unit it comes from. */
  function ParagraphText(units: seq<Unit>): (r: (Text, seq<nat>))
    ensures |r.0| == |r.1| == TextLength(units)
  {
    if units == [] then ([], [])
    else
      var n := |units| - 1;
      var r := ParagraphText(units[..n]);
      (r.0 + units[n].text, r.1 + seq<nat>(|units[n].text|, _ => n))
  }

  method CollectText(units: seq<Unit>) returns (text: Text, owner: seq<nat>)
    ensures (text, owner) == ParagraphText(units)
  {
    text, owner := [], [];
    assert units[..0] == [];
    for n := 0 to |units|
      invariant (text, owner) == ParagraphText(units[..n])
    {
      assert units[..n + 1][..n] == units[..n] && units[..n + 1][n] == units[n];
      text := text + units[n].text;
      owner := owner + seq<nat>(|units[n].text|, _ => n);
    }
    assert units[..|units|] == units;
  }

  /** Every character has its own unit, and belongs where the lengths of the units before it add up to. */
  lemma {:induction false} OwnerIs(units: seq<Unit>)
    requires AllFormed(units)
    ensures var owner := ParagraphText(units).1;
            forall c :: 0 <= c < |owner| ==>
              owner[c] < |units| && |units[owner[c]].text| == 1 && TextLength(units[..owner[c]]) == c
  {
    if units != [] {
      var n := |units| - 1;
      OwnerIs(units[..n]);
      var owner := ParagraphText(units).1;
      assert WellFormed(units[n]);
      forall c | 0 <= c < |owner|
        ensures owner[c] < |units| && |units[owner[c]].text| == 1 && TextLength(units[..owner[c]]) == c
      {
        if c < TextLength(units[..n]) {
          assert owner[c] == ParagraphText(units[..n]).1[c];
          assert units[..n][..owner[c]] == units[..owner[c]];
        }
      }
    }
  }

  lemma {:induction false} TextLengthStep(units: seq<Unit>, k: nat)
    requires k < |units|
    ensures TextLength(units[..k + 1]) == TextLength(units[..k]) + |units[k].text|
  {
    assert units[..k + 1][..k] == units[..k];
  }

  lemma {:induction false} TextLengthMonotone(units: seq<Unit>, j: nat, k: nat)
    requires j <= k <= |units|
    ensures TextLength(units[..j]) <= TextLength(units[..k])
    decreases k - j
  {
    if j < k {
      TextLengthStep(units, k - 1);
      TextLengthMonotone(units, j, k - 1);
    }
  }
}
