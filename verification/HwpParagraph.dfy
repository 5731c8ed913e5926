/** Masking one paragraph of a Hangul document (_hwp.py `_mask_paragraph`): its text, its header and its side tables. */
module HwpParagraph {
  import opened Base
  import opened Rules
  import Spans
  import opened MaskedSpans
  import opened HwpUnits
  import opened HwpRewrite
  import opened HwpMoves
  import opened HwpPositions
  import opened HwpTables
  import CfbFormat

  type Bytes = seq<byte>

  /** A paragraph: the payloads of its header and of its text, the shape list and the range tags, each if there is such a
      record, and whether the layout of its lines is cached. */
  datatype Paragraph = Paragraph(
    header: Bytes,
    text: Option<Bytes>,
    shapes: Option<seq<Shape>>,
    ranges: seq<Range>,
    layout: bool)

  datatype ParagraphError = Broken(cause: UnitsError) | TooLarge

  // ---------------------------------------------------------------- the header

  /** `chars & 0x80000000 | total`. */
  function CharsWord(chars: nat, total: nat): (word: nat)
    requires chars <= CfbFormat.MAX32 && total <= CfbFormat.MAX32
    ensures word <= CfbFormat.MAX32
  {
    if total >= 0x8000_0000 then total else chars / 0x8000_0000 * 0x8000_0000 + total
  }

  function Put16(raw: Bytes, at: nat, n: nat): (out: Bytes)
    requires at + 2 <= |raw| && n < 0x1_0000
    ensures |out| == |raw|
  {
    raw[..at] + CfbFormat.U16(n) + raw[at + 2..]
  }

  /** The header for a text of `total` code units and `shapes` shapes, with no cached lines. */
  function HeaderAfter(header: Bytes, total: nat, shapes: Option<nat>): (out: Bytes)
    requires |header| >= 4 && total <= CfbFormat.MAX32
    requires shapes.Some? && |header| >= 14 ==> shapes.value < 0x1_0000
    ensures |out| == |header|
  {
    var a := CfbFormat.U32(CharsWord(CfbFormat.Get32(header, 0), total)) + header[4..];
    var b := if shapes.Some? && |a| >= 14 then Put16(a, 12, shapes.value) else a;
    if |b| >= 18 then Put16(b, 16, 0) else b
  }

  lemma {:induction false} Put16Says(raw: Bytes, at: nat, n: nat)
    requires at + 2 <= |raw| && n < 0x1_0000
    ensures CfbFormat.Get16(Put16(raw, at, n), at) == n
    ensures forall i :: 0 <= i < |raw| && (i < at || at + 2 <= i) ==> Put16(raw, at, n)[i] == raw[i]
  {
    var out := Put16(raw, at, n);
    assert out[at..at + 2] == CfbFormat.U16(n);
    CfbFormat.Read16(out, at, n);
  }

  lemma {:induction false} Put32Says(rest: Bytes, n: nat)
    requires n <= CfbFormat.MAX32
    ensures CfbFormat.Get32(CfbFormat.U32(n) + rest, 0) == n
  {
    var out := CfbFormat.U32(n) + rest;
    assert out[0..4] == CfbFormat.U32(n);
    CfbFormat.Read32(out, 0, n);
  }

  /** The header counts the new text and shapes and no lines; its top bit and all other bytes stay. */
  lemma {:induction false} HeaderSays(header: Bytes, total: nat, shapes: Option<nat>)
    requires |header| >= 4 && total < 0x8000_0000
    requires shapes.Some? && |header| >= 14 ==> shapes.value < 0x1_0000
    ensures var out, was := HeaderAfter(header, total, shapes), CfbFormat.Get32(header, 0);
            && CfbFormat.Get32(out, 0) % 0x8000_0000 == total
            && CfbFormat.Get32(out, 0) / 0x8000_0000 == was / 0x8000_0000
            && (shapes.Some? && |header| >= 14 ==> CfbFormat.Get16(out, 12) == shapes.value)
            && (|header| >= 18 ==> CfbFormat.Get16(out, 16) == 0)
            && (forall i :: 4 <= i < |header| && i != 12 && i != 13 && i != 16 && i != 17 ==> out[i] == header[i])
            && (shapes.None? ==> forall i :: 12 <= i < 14 && i < |header| ==> out[i] == header[i])
  {
    hide *;
    WordSays(header, total);
    var word, rest := CharsWord(CfbFormat.Get32(header, 0), total), header[4..];
    var a := CfbFormat.U32(word) + rest;
    Put32Says(rest, word);
    FrontIs(word, rest);
    var b := if shapes.Some? && |a| >= 14 then Put16(a, 12, shapes.value) else a;
    if shapes.Some? && |a| >= 14 {
      Put16Says(a, 12, shapes.value);
      SameFields(a, b);
    }
    if |b| >= 18 {
      Put16Says(b, 16, 0);
      SameFields(b, Put16(b, 16, 0));
    }
    HeaderAfterIs(header, total, shapes);
  }

  lemma {:induction false} WordSays(header: Bytes, total: nat)
    requires |header| >= 4 && total < 0x8000_0000
    ensures CfbFormat.Get32(header, 0) <= CfbFormat.MAX32 && total <= CfbFormat.MAX32
    ensures var was := CfbFormat.Get32(header, 0);
            && CharsWord(was, total) <= CfbFormat.MAX32
            && CharsWord(was, total) % 0x8000_0000 == total && CharsWord(was, total) / 0x8000_0000 == was / 0x8000_0000
  {
    hide CfbFormat.Get32;
  }

  lemma {:induction false} FrontIs(word: nat, rest: Bytes)
    requires word <= CfbFormat.MAX32
    ensures |CfbFormat.U32(word)| == 4
  {
  }

  /** Fields whose bytes are the same are the same. */
  lemma {:induction false} SameFields(x: Bytes, y: Bytes)
    requires |x| == |y| && |x| >= 4
    ensures x[..4] == y[..4] ==> CfbFormat.Get32(x, 0) == CfbFormat.Get32(y, 0)
    ensures |x| >= 14 && x[12..14] == y[12..14] ==> CfbFormat.Get16(x, 12) == CfbFormat.Get16(y, 12)
  {
    assert x[..4] == y[..4] ==> forall i :: 0 <= i < 4 ==> x[i] == x[..4][i] == y[..4][i] == y[i];
    if |x| >= 14 && x[12..14] == y[12..14] {
      assert x[12] == x[12..14][0] && y[12] == y[12..14][0] && x[13] == x[12..14][1] && y[13] == y[12..14][1];
    }
  }

  lemma {:induction false} HeaderAfterIs(header: Bytes, total: nat, shapes: Option<nat>)
    requires |header| >= 4 && total <= CfbFormat.MAX32
    requires shapes.Some? && |header| >= 14 ==> shapes.value < 0x1_0000
    ensures CharsWord(CfbFormat.Get32(header, 0), total) <= CfbFormat.MAX32
    ensures var a := CfbFormat.U32(CharsWord(CfbFormat.Get32(header, 0), total)) + header[4..];
            && |a| == |header|
            && var b := if shapes.Some? && |a| >= 14 then Put16(a, 12, shapes.value) else a;
            HeaderAfter(header, total, shapes) == if |b| >= 18 then Put16(b, 16, 0) else b
  {
    hide Put16, CharsWord, CfbFormat.Get32, CfbFormat.U32;
  }

  // ---------------------------------------------------------------- the paragraph

  /** Everything that is packed fits its field. */
  predicate Fields(header: Bytes, total: nat, shapes: Option<seq<Shape>>, ranges: seq<Range>) {
    && total <= CfbFormat.MAX32
    && (shapes.Some? ==>
          && (|header| >= 14 ==> |shapes.value| < 0x1_0000)
          && forall k :: 0 <= k < |shapes.value| ==> shapes.value[k].pos <= CfbFormat.MAX32)
    && forall k :: 0 <= k < |ranges| ==> ranges[k].start <= CfbFormat.MAX32 && ranges[k].end <= CfbFormat.MAX32
  }

  /** `out` is the new text: the controls of the old one with all they carry and the other code units with the spans
      spliced in. Every unit goes where the rewriting puts it; in the new text it lies, in order, where its spot says. */
  ghost predicate TextMasked(units: seq<Unit>, spans: seq<Span>, spots: seq<Spot>, out: Wide) {
    var owner := ParagraphText(units).1;
    && Fitting(units, owner, spans, 0)
    && out == Output(units, owner, spans, 0) && spots == Spots(units, owner, spans, 0, 0)
    && |spots| == |units| && Ascend(units, spots, 0, |out|) && Located(units, spots, out)
    && var after := UnitsOf(out);
    after.Some? && Controls(after.value) == Controls(units) && Plain(after.value) == PlainAfter(units, owner, spans, 0)
  }

  ghost function MovedShapes(units: seq<Unit>, spots: seq<Spot>, total: nat, shapes: Option<seq<Shape>>): Option<seq<Shape>>
    requires |units| == |spots|
  {
    match shapes
    case None => None
    case Some(list) => Some(Moved(units, spots, total, list))
  }

  ghost function MovedRanges(units: seq<Unit>, spots: seq<Spot>, total: nat, ranges: seq<Range>): (out: seq<Range>)
    requires |units| == |spots|
    ensures |out| == |ranges|
  {
    seq(|ranges|, k requires 0 <= k < |ranges| => MovedRange(units, spots, total, ranges[k]))
  }

  /** The paragraph with its text masked and everything that points into the text moved along. */
  ghost predicate ParagraphMasked(p: Paragraph, q: Paragraph, units: seq<Unit>, spots: seq<Spot>, out: Wide)
    requires |units| == |spots| && |p.header| >= 4
  {
    var shapes := MovedShapes(units, spots, |out|, p.shapes);
    && q.text == Some(BytesOf(out)) && q.shapes == shapes
    && (shapes.Some? ==> Rising(shapes.value))
    && q.ranges == MovedRanges(units, spots, |out|, p.ranges) && !q.layout
    && Fields(p.header, |out|, q.shapes, q.ranges)
    && q.header == HeaderAfter(p.header, |out|, CountOf(q.shapes))
  }

  function CountOf(shapes: Option<seq<Shape>>): Option<nat> {
    match shapes
    case None => None
    case Some(list) => Some(|list|)
  }

  /** Nothing to do without a text or without the count in the header. */
  predicate Skipped(p: Paragraph) {
    p.text.None? || |p.header| < 4
  }

  /** `_mask_paragraph`. */
  method MaskParagraph(p: Paragraph, rules: seq<Rule>)
    returns (r: Result<Paragraph, ParagraphError>, hits: nat, ghost units: seq<Unit>, ghost spans: seq<Span>,
             ghost spots: seq<Spot>, ghost out: Wide)
    requires AllValid(rules)
    ensures Skipped(p) <==> p.text.None? || |p.header| < 4
    ensures Skipped(p) ==> r == Ok(p) && hits == 0
    ensures !Skipped(p) && |p.text.value| % 2 == 1 ==> r == Err(Broken(OddLength))
    ensures !Skipped(p) && |p.text.value| % 2 == 0 ==>
              var parsed := UnitsOf(WideOf(p.text.value));
              && (parsed.None? ==> r == Err(Broken(ControlCut)))
              && (parsed.Some? ==>
                    && units == parsed.value && SpansFor(ParagraphText(units).0, rules, spans) && hits == |spans|
                    && (hits == 0 ==> r == Ok(p))
                    && (hits > 0 ==>
                          && TextMasked(units, spans, spots, out)
                          && (r.Ok? ==> ParagraphMasked(p, r.value, units, spots, out))
                          && (r.Err? ==> r.error == TooLarge && !FieldsFit(p, units, spots, out))))
  {
    r, hits, units, spans, spots, out := Ok(p), 0, [], [], [], [];
    if p.text.None? || |p.header| < 4 { return; }
    hide *;
    SkippedIs(p);
    var parsed := ReadUnits(p.text.value);
    if parsed.Err? {
      UnitsFailed(p.text.value, parsed);
      r := Err(Broken(parsed.error));
      return;
    }
    var us := parsed.value;
    units := us;
    UnitsEven(p.text.value, parsed);
    var text, owner := CollectText(us);
    PairOf(us, text, owner);
    var found := FindMaskedSpans(text, rules);
    SpansSay(text, rules, found);
    spans, hits := found, |found|;
    if found == [] { return; }
    var wide, places := RewriteText(us, text, owner, found, p.text.value);
    spots, out := places, wide;
    TextMaskedCount(us, found, places, wide);
    var starts, oldTotal := CollectStarts(us);
    var shapes := None;
    if p.shapes.Some? {
      var list := MoveShapes(us, starts, oldTotal, places, |wide|, p.shapes.value);
      MovedRises(us, places, |wide|, p.shapes.value);
      shapes := Some(list);
    }
    var ranges := MoveRanges(us, starts, oldTotal, places, |wide|, p.ranges);
    MovedAll(us, places, |wide|, p, shapes, ranges);
    if !Fields(p.header, |wide|, shapes, ranges) {
      NotFitting(p, us, places, wide, shapes, ranges);
      r := Err(TooLarge);
      return;
    }
    FieldsFitHeader(p.header, |wide|, shapes, ranges);
    var header := HeaderAfter(p.header, |wide|, CountOf(shapes));
    r := Ok(Paragraph(header, Some(BytesOf(wide)), shapes, ranges, false));
    IsMasked(p, r.value, us, places, wide);
  }

  /** Whether the moved tables and counts fit their fields. */
  ghost predicate FieldsFit(p: Paragraph, units: seq<Unit>, spots: seq<Spot>, out: Wide)
    requires |units| == |spots|
  {
    Fields(p.header, |out|, MovedShapes(units, spots, |out|, p.shapes), MovedRanges(units, spots, |out|, p.ranges))
  }

  lemma {:induction false} SkippedIs(p: Paragraph)
    ensures Skipped(p) <==> p.text.None? || |p.header| < 4
  {
  }

  lemma {:induction false} UnitsFailed(payload: Bytes, r: Result<seq<Unit>, UnitsError>)
    requires r.Err? && (r == Err(OddLength) <==> |payload| % 2 == 1)
    requires |payload| % 2 == 0 ==> (r == Err(ControlCut) <==> Split(WideOf(payload)).None?)
    ensures |payload| % 2 == 1 ==> r.error == OddLength
    ensures |payload| % 2 == 0 ==> r.error == ControlCut && UnitsOf(WideOf(payload)).None?
  {
    if |payload| % 2 == 0 { UnitsSplit(WideOf(payload)); }
  }

  lemma {:induction false} UnitsEven(payload: Bytes, r: Result<seq<Unit>, UnitsError>)
    requires r.Ok? && (r == Err(OddLength) <==> |payload| % 2 == 1)
    ensures |payload| % 2 == 0
  {
  }

  lemma {:induction false} PairOf(units: seq<Unit>, text: seq<point>, owner: seq<nat>)
    requires (text, owner) == ParagraphText(units)
    ensures text == ParagraphText(units).0 && owner == ParagraphText(units).1 && |text| == TextLength(units)
  {
  }

  /** The new text, with where every unit went. */
  method RewriteText(units: seq<Unit>, ghost text: Text, owner: seq<nat>, spans: seq<Span>, ghost payload: Bytes)
    returns (out: Wide, places: seq<Spot>)
    requires UnitsOf(WideOf(payload)) == Some(units) && (text, owner) == ParagraphText(units) && DisjointSpans(spans, |text|)
    ensures TextMasked(units, spans, places, out)
    ensures AllFormed(units)
  {
    hide *;
    PairOf(units, text, owner);
    RewriteConserves(WideOf(payload), units, spans);
    UnitsAreThePayload(WideOf(payload));
    out, places := Rewrite(units, owner, spans);
    SpotsAscend(units, owner, spans, 0, 0);
    assert units[0..] == units;
    SliceEnd([], out);
    assert [] + out == out;
    SpotsLocated(units, owner, spans, 0, 0, out);
    SpotCount(units, owner, spans);
    IsTextMasked(units, owner, spans, places, out);
  }

  lemma {:induction false} IsTextMasked(units: seq<Unit>, owner: seq<nat>, spans: seq<Span>, spots: seq<Spot>, out: Wide)
    requires owner == ParagraphText(units).1
    requires Fitting(units, owner, spans, 0)
    requires out == Output(units, owner, spans, 0) && spots == Spots(units, owner, spans, 0, 0)
    requires |spots| == |units| && Ascend(units, spots, 0, |out|) && Located(units, spots, out)
    requires var after := UnitsOf(out);
             after.Some? && Controls(after.value) == Controls(units) && Plain(after.value) == PlainAfter(units, owner, spans, 0)
    ensures TextMasked(units, spans, spots, out)
  {
    hide Ascend, Located, Fitting, Output, Spots, UnitsOf, Controls, Plain, PlainAfter;
  }

  lemma {:induction false} TextMaskedCount(units: seq<Unit>, spans: seq<Span>, spots: seq<Spot>, out: Wide)
    requires TextMasked(units, spans, spots, out)
    ensures |spots| == |units|
  {
    hide Ascend, Located, Fitting, Output, Spots, UnitsOf, Controls, Plain, PlainAfter;
  }

  lemma {:induction false} MovedAll(units: seq<Unit>, spots: seq<Spot>, total: nat, p: Paragraph, shapes: Option<seq<Shape>>,
                                    ranges: seq<Range>)
    requires |units| == |spots| && |ranges| == |p.ranges|
    requires shapes.Some? <==> p.shapes.Some?
    requires shapes.Some? ==> shapes.value == Moved(units, spots, total, p.shapes.value) && Rising(shapes.value)
    requires forall k :: 0 <= k < |ranges| ==> ranges[k] == MovedRange(units, spots, total, p.ranges[k])
    ensures shapes == MovedShapes(units, spots, total, p.shapes) && ranges == MovedRanges(units, spots, total, p.ranges)
    ensures shapes.Some? ==> Rising(shapes.value)
  {
    hide Moved, MovedRange, Rising;
  }

  lemma {:induction false} NotFitting(p: Paragraph, units: seq<Unit>, spots: seq<Spot>, out: Wide, shapes: Option<seq<Shape>>,
                                      ranges: seq<Range>)
    requires |units| == |spots| && !Fields(p.header, |out|, shapes, ranges)
    requires shapes == MovedShapes(units, spots, |out|, p.shapes) && ranges == MovedRanges(units, spots, |out|, p.ranges)
    ensures !FieldsFit(p, units, spots, out)
  {
    hide Fields, MovedShapes, MovedRanges;
  }

  lemma {:induction false} FieldsFitHeader(header: Bytes, total: nat, shapes: Option<seq<Shape>>, ranges: seq<Range>)
    requires Fields(header, total, shapes, ranges)
    ensures total <= CfbFormat.MAX32
    ensures var count := CountOf(shapes); count.Some? && |header| >= 14 ==> count.value < 0x1_0000
  {
  }

  lemma {:induction false} IsMasked(p: Paragraph, q: Paragraph, units: seq<Unit>, spots: seq<Spot>, out: Wide)
    requires |units| == |spots| && |p.header| >= 4
    requires q.text == Some(BytesOf(out)) && q.shapes == MovedShapes(units, spots, |out|, p.shapes)
    requires q.shapes.Some? ==> Rising(q.shapes.value)
    requires q.ranges == MovedRanges(units, spots, |out|, p.ranges) && !q.layout
    requires Fields(p.header, |out|, q.shapes, q.ranges)
    requires q.header == HeaderAfter(p.header, |out|, CountOf(q.shapes))
    ensures ParagraphMasked(p, q, units, spots, out)
  {
    hide MovedShapes, MovedRanges, Fields, HeaderAfter, Rising;
  }

  /** `old_starts` and `old_total`. */
  method CollectStarts(units: seq<Unit>) returns (starts: seq<nat>, total: nat)
    ensures starts == Starts(units, 0) && total == |Raw(units)|
  {
    starts, total := [], 0;
    assert [] + Starts(units, 0) == Starts(units, 0) && units[0..] == units;
    for k := 0 to |units|
      invariant starts + Starts(units[k..], total) == Starts(units, 0)
      invariant total + |Raw(units[k..])| == |Raw(units)|
    {
      assert units[k..][1..] == units[k + 1..];
      Assoc(starts, [total], Starts(units[k + 1..], total + |units[k].raw|));
      starts := starts + [total];
      total := total + |units[k].raw|;
    }
    assert units[|units|..] == [];
  }

  // ---------------------------------------------------------------- what a masked paragraph keeps

  lemma {:induction false} MaskedParts(p: Paragraph, q: Paragraph, units: seq<Unit>, spans: seq<Span>, spots: seq<Spot>, out: Wide)
    requires |p.header| >= 4 && TextMasked(units, spans, spots, out) && ParagraphMasked(p, q, units, spots, out)
    ensures |spots| == |units| && Ascend(units, spots, 0, |out|) && Located(units, spots, out)
    ensures Fitting(units, ParagraphText(units).1, spans, 0) && spots == Spots(units, ParagraphText(units).1, spans, 0, 0)
    ensures q.shapes == MovedShapes(units, spots, |out|, p.shapes) && q.ranges == MovedRanges(units, spots, |out|, p.ranges)
  {
    hide Ascend, Located, Fitting, Output, Spots, UnitsOf, Controls, Plain, PlainAfter, MovedShapes, MovedRanges, Fields,
         HeaderAfter, Rising;
  }

  /** Every code unit of a control code and every one outside the spans is still there, at its new position, with the same
      character shape in force and inside the same ranges as before. */
  lemma {:induction false} LooksKept(p: Paragraph, q: Paragraph, units: seq<Unit>, spans: seq<Span>, spots: seq<Spot>, out: Wide,
                                     at: nat)
    requires |p.header| >= 4 && TextMasked(units, spans, spots, out) && ParagraphMasked(p, q, units, spots, out)
    requires at < |Raw(units)| && Stays(units, ParagraphText(units).1, spans, UnitAt(units, at))
    ensures |spots| == |units| && |q.ranges| == |p.ranges|
    ensures var now := Position(units, spots, at, |out|);
            && now < |out| && out[now] == Raw(units)[at]
            && (p.shapes.Some? && HwpTables.Sorted(p.shapes.value) ==>
                  q.shapes.Some? && InForce(q.shapes.value, now) == InForce(p.shapes.value, at))
            && (forall k :: 0 <= k < |p.ranges| ==>
                  && q.ranges[k].tag == p.ranges[k].tag
                  && (q.ranges[k].start <= now < q.ranges[k].end <==> p.ranges[k].start <= at < p.ranges[k].end))
  {
    hide *;
    MaskedParts(p, q, units, spans, spots, out);
    SurvivesExactly(units, ParagraphText(units).1, spans, at);
    SurvivorFound(units, spots, out, at, |out|);
    if p.shapes.Some? && HwpTables.Sorted(p.shapes.value) {
      ShapeKept(units, spots, 0, |out|, p.shapes.value, at);
      MovedShapesIs(units, spots, |out|, p.shapes);
    }
    forall k: nat | k < |p.ranges|
      ensures MovedRanges(units, spots, |out|, p.ranges)[k] == MovedRange(units, spots, |out|, p.ranges[k])
      ensures var moved, now := MovedRange(units, spots, |out|, p.ranges[k]), Position(units, spots, at, |out|);
              && moved.tag == p.ranges[k].tag
              && (moved.start <= now < moved.end <==> p.ranges[k].start <= at < p.ranges[k].end)
    {
      RangeKept(units, spots, 0, |out|, p.ranges[k], at);
      MovedRangeAt(units, spots, |out|, p.ranges, k);
    }
  }

  lemma {:induction false} MovedShapesIs(units: seq<Unit>, spots: seq<Spot>, total: nat, shapes: Option<seq<Shape>>)
    requires |units| == |spots| && shapes.Some?
    ensures MovedShapes(units, spots, total, shapes) == Some(Moved(units, spots, total, shapes.value))
  {
  }

  lemma {:induction false} MovedRangeAt(units: seq<Unit>, spots: seq<Spot>, total: nat, ranges: seq<Range>, k: nat)
    requires |units| == |spots| && k < |ranges|
    ensures MovedRanges(units, spots, total, ranges)[k] == MovedRange(units, spots, total, ranges[k])
  {
  }

  /** In terms of the rules: of a unit that is no control code the code units stay exactly if its character survives. */
  lemma {:induction false} StaysExactly(units: seq<Unit>, rules: seq<Rule>, spans: seq<Span>, k: nat)
    requires AllValid(rules) && AllFormed(units) && SpansFor(ParagraphText(units).0, rules, spans)
    requires k < |units| && !units[k].control
    ensures Stays(units, ParagraphText(units).1, spans, k)
       <==> Spans.Survives(Spans.Trace(ParagraphText(units).0, rules), TextLength(units[..k]))
  {
    var text, owner, c := ParagraphText(units).0, ParagraphText(units).1, TextLength(units[..k]);
    CharOf(units, k);
    CoversExactly(text, rules, spans, c);
    hide ParagraphText, SpansFor, Spans.Survives, Spans.Trace;
    SpansSay(text, rules, spans);
    forall j | 0 <= j < |spans|
      ensures Within(owner, spans[j], k) <==> spans[j].start <= c < spans[j].end
    {
      WithinExactly(units, spans[j], k);
    }
    if Covered(spans, c) {
      var e :| e in spans && e.start <= c < e.end;
      var j :| 0 <= j < |spans| && spans[j] == e;
      assert Within(owner, spans[j], k);
    } else {
      forall j | 0 <= j < |spans|
        ensures !Within(owner, spans[j], k)
      {
        assert spans[j] in spans;
      }
    }
  }

  lemma {:induction false} CoversExactly(text: Text, rules: seq<Rule>, spans: seq<Span>, c: nat)
    requires AllValid(rules) && SpansFor(text, rules, spans) && c < |text|
    ensures Covered(spans, c) <==> !Spans.Survives(Spans.Trace(text, rules), c)
  {
  }

  lemma {:induction false} CharOf(units: seq<Unit>, k: nat)
    requires AllFormed(units) && k < |units| && !units[k].control
    ensures |units[k].text| == 1 && TextLength(units[..k]) < TextLength(units)
    ensures |ParagraphText(units).0| == |ParagraphText(units).1| == TextLength(units)
  {
    assert WellFormed(units[k]);
    TextLengthStep(units, k);
    TextLengthMonotone(units, k + 1, |units|);
    assert units[..|units|] == units;
  }

  /** The units of a span are those whose character it covers. */
  lemma {:induction false} WithinExactly(units: seq<Unit>, s: Span, k: nat)
    requires AllFormed(units) && s.start < s.end <= TextLength(units) && k < |units| && |units[k].text| == 1
    ensures Within(ParagraphText(units).1, s, k) <==> s.start <= TextLength(units[..k]) < s.end
  {
    var owner := ParagraphText(units).1;
    hide *;
    OwnerAt(units, s.start);
    OwnerAt(units, s.end - 1);
    var first, last := owner[s.start], owner[s.end - 1];
    TextLengthStep(units, k);
    WithinIs(owner, s, k);
    if first <= k {
      TextLengthMonotone(units, first, k);
    } else {
      TextLengthMonotone(units, k + 1, first);
    }
    if k <= last {
      TextLengthMonotone(units, k, last);
    } else {
      TextLengthStep(units, last);
      TextLengthMonotone(units, last + 1, k);
    }
  }

  lemma {:induction false} WithinIs(owner: seq<nat>, s: Span, k: nat)
    requires s.start < s.end <= |owner|
    ensures Within(owner, s, k) <==> owner[s.start] <= k <= owner[s.end - 1]
  {
  }
}
