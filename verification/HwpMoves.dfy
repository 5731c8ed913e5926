/** What rewriting a paragraph keeps (_hwp.py `_Rewrite`): control codes, the rest of the text, the order of places. */
module HwpMoves {
  import opened Base
  import opened HwpUnits
  import opened HwpRewrite

  // ---------------------------------------------------------------- conservation

  /** The ordinary code units that should be left: those outside the spans, and each mask in full. */
  ghost function PlainAfter(units: seq<Unit>, owner: seq<nat>, spans: seq<Span>, cursor: nat): Wide
    requires Fitting(units, owner, spans, cursor)
    decreases |spans|
  {
    if spans == [] then Plain(units[cursor..])
    else
      Plain(units[cursor..owner[spans[0].start]]) + Encode(SafeMask(spans[0].mask))
      + PlainAfter(units, owner, spans[1..], owner[spans[0].end - 1] + 1)
  }

  /** `rest` splits into controls and ordinary code units, with more of both in front. */
  ghost predicate SplitsInto(payload: Wide, controls: seq<Wide>, plain: Wide) {
    Split(payload) == Some((controls, plain))
  }

  lemma {:induction false} SplitRaw(units: seq<Unit>, rest: Wide, controls: seq<Wide>, plain: Wide)
    requires AllFormed(units) && SplitsInto(rest, controls, plain)
    ensures SplitsInto(Raw(units) + rest, Controls(units) + controls, Plain(units) + plain)
  {
    if units == [] {
      assert [] + rest == rest && [] + controls == controls && [] + plain == plain;
    } else {
      var u := units[0];
      assert WellFormed(u) && AllFormed(units[1..]);
      SplitRaw(units[1..], rest, controls, plain);
      hide AllFormed, WellFormed, Ordinary;
      SplitOne(u, Raw(units[1..]) + rest, Controls(units[1..]) + controls, Plain(units[1..]) + plain);
      UnitCons(u, units[1..]);
      assert units == [u] + units[1..];
      Assoc(u.raw, Raw(units[1..]), rest);
      Assoc([u.raw], Controls(units[1..]), controls);
      Assoc(u.raw, Plain(units[1..]), plain);
    }
  }

  lemma {:induction false} SplitOne(u: Unit, rest: Wide, controls: seq<Wide>, plain: Wide)
    requires WellFormed(u) && SplitsInto(rest, controls, plain)
    ensures SplitsInto(u.raw + rest, if u.control then [u.raw] + controls else controls, if u.control then plain else u.raw + plain)
  {
    hide Split;
    if u.control { SplitControl(u.raw, rest); } else { SplitOrdinary(u.raw, rest); }
  }

  ghost predicate AllSafe(text: seq<point>) {
    forall i :: 0 <= i < |text| ==> text[i] >= 32
  }

  lemma {:induction false} EncodeOrdinary(text: seq<point>)
    requires AllSafe(text)
    ensures Ordinary(Encode(text))
  {
    if text != [] { EncodeOrdinary(text[1..]); }
  }

  lemma {:induction false} EncodeJoin(a: seq<point>, b: seq<point>)
    ensures Encode(a + b) == Encode(a) + Encode(b)
  {
    if a == [] {
      assert a + b == b;
    } else {
      assert (a + b)[0] == a[0] && (a + b)[1..] == a[1..] + b;
      EncodeJoin(a[1..], b);
      Assoc(EncodePoint(a[0]), Encode(a[1..]), Encode(b));
    }
  }

  lemma {:induction false} EncodeSlices(mask: seq<point>, a: nat, b: nat, c: nat)
    requires a <= b <= c <= |mask|
    ensures Encode(Slice(mask, a, c)) == Encode(Slice(mask, a, b)) + Encode(Slice(mask, b, c))
  {
    hide Encode;
    EncodeJoin(Slice(mask, a, b), Slice(mask, b, c));
    JoinSlices(mask, a, b, c);
  }

  /** The span covers units `k..stop` of the paragraph, from its first character on. */
  ghost predicate Covers(units: seq<Unit>, s: Span, k: nat, stop: nat) {
    && k < stop <= |units| && s.start < s.end && AllFormed(units) && AllSafe(s.mask)
    && s.start <= TextLength(units[..k]) && TextLength(units[..stop - 1]) < s.end
  }

  lemma {:induction false} CoversNext(units: seq<Unit>, s: Span, k: nat, stop: nat)
    requires Covers(units, s, k, stop)
    ensures WellFormed(units[k]) && Goal(units, s, k) <= |s.mask|
    ensures k + 1 < stop ==> Covers(units, s, k + 1, stop) && Goal(units, s, k) <= Goal(units, s, k + 1)
  {
    hide Goal, WellFormed;
    TakenFits(units, s, k, stop);
  }

  /** Inside a span the controls stay in order and the mask comes out whole, however it is broken up between them. */
  lemma {:induction false} SplitSpan(units: seq<Unit>, s: Span, k: nat, stop: nat, taken: nat,
                                     rest: Wide, controls: seq<Wide>, plain: Wide)
    requires Covers(units, s, k, stop) && taken <= Goal(units, s, k) && SplitsInto(rest, controls, plain)
    ensures SplitsInto(SpanOut(units, s, k, stop, taken) + rest,
                       Controls(units[k..stop]) + controls, Encode(Slice(s.mask, taken, |s.mask|)) + plain)
    decreases stop - k
  {
    hide *;
    CoversParts(units, s, k, stop);
    var goal := Goal(units, s, k);
    CoversNext(units, s, k, stop);
    var taken' := if units[k].control then goal else taken;
    var more := SpanOut(units, s, k + 1, stop, taken');
    var controls', plain' := Controls(units[k + 1..stop]) + controls, Encode(Slice(s.mask, taken', |s.mask|)) + plain;
    if k + 1 < stop {
      SplitSpan(units, s, k + 1, stop, taken', rest, controls, plain);
    } else {
      SplitMask(s.mask, taken', rest, controls, plain);
      SpanEnd(units, s, stop, taken', 0);
      assert units[stop..stop] == [];
      NoControls();
      assert [] + controls == controls;
    }
    SpanOutStep(units, s, k, stop, taken);
    ControlsStep(units, k, stop);
    if units[k].control {
      var part := Encode(Slice(s.mask, taken, goal));
      SplitOne(units[k], more + rest, controls', plain');
      SplitPart(s.mask, taken, goal, units[k].raw + (more + rest), [units[k].raw] + controls', plain');
      EncodeSlices(s.mask, taken, goal, |s.mask|);
      Assoc(part, Encode(Slice(s.mask, goal, |s.mask|)), plain);
      Assoc([units[k].raw], Controls(units[k + 1..stop]), controls);
      Assoc(part, units[k].raw, more);
      Assoc(part, units[k].raw + more, rest);
      Assoc(units[k].raw, more, rest);
    }
  }

  lemma {:induction false} NoControls()
    ensures Controls([]) == []
  {
  }

  lemma {:induction false} CoversParts(units: seq<Unit>, s: Span, k: nat, stop: nat)
    requires Covers(units, s, k, stop)
    ensures k < stop <= |units| && s.start < s.end && AllSafe(s.mask)
  {
  }

  lemma {:induction false} SpanOutStep(units: seq<Unit>, s: Span, k: nat, stop: nat, taken: nat)
    requires k < stop <= |units| && s.start < s.end
    ensures SpanOut(units, s, k, stop, taken)
              == if units[k].control then
                   Encode(Slice(s.mask, taken, Goal(units, s, k))) + units[k].raw
                   + SpanOut(units, s, k + 1, stop, Goal(units, s, k))
                 else SpanOut(units, s, k + 1, stop, taken)
  {
  }

  lemma {:induction false} ControlsStep(units: seq<Unit>, k: nat, stop: nat)
    requires k < stop <= |units|
    ensures Controls(units[k..stop])
              == if units[k].control then [units[k].raw] + Controls(units[k + 1..stop]) else Controls(units[k + 1..stop])
  {
    assert units[k..stop] == [units[k]] + units[k + 1..stop];
    UnitCons(units[k], units[k + 1..stop]);
  }

  lemma {:induction false} SplitPart(mask: seq<point>, a: nat, b: nat, rest: Wide, controls: seq<Wide>, plain: Wide)
    requires AllSafe(mask) && SplitsInto(rest, controls, plain)
    ensures SplitsInto(Encode(Slice(mask, a, b)) + rest, controls, Encode(Slice(mask, a, b)) + plain)
  {
    hide Encode, Split;
    EncodeOrdinary(Slice(mask, a, b));
    SplitOrdinary(Encode(Slice(mask, a, b)), rest);
  }

  lemma {:induction false} SplitMask(mask: seq<point>, taken: nat, rest: Wide, controls: seq<Wide>, plain: Wide)
    requires AllSafe(mask) && SplitsInto(rest, controls, plain)
    ensures SplitsInto(Encode(Slice(mask, taken, |mask|)) + rest, controls, Encode(Slice(mask, taken, |mask|)) + plain)
  {
    hide *;
    SplitPart(mask, taken, |mask|, rest, controls, plain);
  }

  lemma {:induction false} FirstCovers(units: seq<Unit>, owner: seq<nat>, spans: seq<Span>, cursor: nat)
    requires AllFormed(units) && Fitting(units, owner, spans, cursor) && spans != []
    ensures var first, last := owner[spans[0].start], owner[spans[0].end - 1];
            Covers(units, Safe(spans[0]), first, last + 1)
  {
    FittingParts(units, owner, spans, cursor);
    hide AllFormed, TextLength;
  }

  lemma {:induction false} WholeMask(mask: seq<point>)
    ensures Slice(mask, 0, |mask|) == mask
  {
  }

  lemma {:induction false} FormedPart(units: seq<Unit>, lo: nat, hi: nat)
    requires AllFormed(units) && lo <= hi <= |units|
    ensures AllFormed(units[lo..hi])
  {
  }

  lemma {:induction false} Conserved(units: seq<Unit>, owner: seq<nat>, spans: seq<Span>, cursor: nat)
    requires AllFormed(units) && Fitting(units, owner, spans, cursor)
    ensures cursor <= |units|
    ensures SplitsInto(Output(units, owner, spans, cursor), Controls(units[cursor..]), PlainAfter(units, owner, spans, cursor))
    decreases |spans|
  {
    hide *;
    FittingParts(units, owner, spans, cursor);
    if spans == [] {
      FormedPart(units, cursor, |units|);
      assert units[cursor..|units|] == units[cursor..];
      LastPart(units, owner, cursor);
      NothingSplits();
      SplitRaw(units[cursor..], [], [], []);
      Ends(units[cursor..]);
    } else {
      var first, last := owner[spans[0].start], owner[spans[0].end - 1];
      var s := Safe(spans[0]);
      Conserved(units, owner, spans[1..], last + 1);
      FirstCovers(units, owner, spans, cursor);
      CoversParts(units, s, first, last + 1);
      var rest, controls := Output(units, owner, spans[1..], last + 1), Controls(units[last + 1..]);
      var plain := PlainAfter(units, owner, spans[1..], last + 1);
      SplitSpan(units, s, first, last + 1, 0, rest, controls, plain);
      FormedPart(units, cursor, first);
      var gap, span := Raw(units[cursor..first]), SpanOut(units, s, first, last + 1, 0);
      SplitRaw(units[cursor..first], span + rest, Controls(units[first..last + 1]) + controls,
               Encode(Slice(s.mask, 0, |s.mask|)) + plain);
      OutputParts(units, owner, spans, cursor, 0);
      PlainParts(units, owner, spans, cursor);
      WholeMask(s.mask);
      ControlsSplit(units, cursor, first, last + 1);
      Assoc(gap, span, rest);
      Assoc(Plain(units[cursor..first]), Encode(s.mask), plain);
      Assoc(Controls(units[cursor..first]), Controls(units[first..last + 1]), controls);
    }
  }

  lemma {:induction false} NothingSplits()
    ensures SplitsInto([], [], [])
  {
  }

  lemma {:induction false} Ends(units: seq<Unit>)
    ensures Raw(units) + [] == Raw(units) && Controls(units) + [] == Controls(units) && Plain(units) + [] == Plain(units)
  {
  }

  lemma {:induction false} LastPart(units: seq<Unit>, owner: seq<nat>, cursor: nat)
    requires Fitting(units, owner, [], cursor) && cursor <= |units|
    ensures Output(units, owner, [], cursor) == Raw(units[cursor..])
    ensures PlainAfter(units, owner, [], cursor) == Plain(units[cursor..])
  {
  }

  lemma {:induction false} PlainParts(units: seq<Unit>, owner: seq<nat>, spans: seq<Span>, cursor: nat)
    requires Fitting(units, owner, spans, cursor) && spans != []
    ensures var first, last := owner[spans[0].start], owner[spans[0].end - 1];
            && cursor <= first && first <= last && last < |units| && Fitting(units, owner, spans[1..], last + 1)
            && Safe(spans[0]).mask == SafeMask(spans[0].mask)
            && PlainAfter(units, owner, spans, cursor)
                 == Plain(units[cursor..first]) + Encode(SafeMask(spans[0].mask)) + PlainAfter(units, owner, spans[1..], last + 1)
  {
    hide Plain, Encode, TextLength;
  }

  lemma {:induction false} ControlsJoin(a: seq<Unit>, b: seq<Unit>)
    ensures Controls(a + b) == Controls(a) + Controls(b)
  {
    if a == [] {
      assert a + b == b;
    } else {
      assert (a + b)[0] == a[0] && (a + b)[1..] == a[1..] + b;
      ControlsJoin(a[1..], b);
      Assoc(if a[0].control then [a[0].raw] else [], Controls(a[1..]), Controls(b));
    }
  }

  lemma {:induction false} ControlsSplit(units: seq<Unit>, a: nat, b: nat, c: nat)
    requires a <= b <= c <= |units|
    ensures Controls(units[a..]) == Controls(units[a..b]) + Controls(units[b..c]) + Controls(units[c..])
  {
    hide Controls;
    assert units[a..] == units[a..b] + units[b..c] + units[c..];
    ControlsJoin(units[a..b] + units[b..c], units[c..]);
    ControlsJoin(units[a..b], units[b..c]);
  }

  /** Parsing the new paragraph gives back every control code, byte for byte and in order; the other code units are the
      unmatched ones with each span's replaced by its whole mask. */
  lemma {:induction false} RewriteConserves(payload: Wide, units: seq<Unit>, spans: seq<Span>)
    requires UnitsOf(payload) == Some(units) && DisjointSpans(spans, TextLength(units))
    ensures AllFormed(units) && Fitting(units, ParagraphText(units).1, spans, 0)
    ensures var owner := ParagraphText(units).1;
            var after := UnitsOf(Output(units, owner, spans, 0));
            && after.Some? && Controls(after.value) == Controls(units)
            && Plain(after.value) == PlainAfter(units, owner, spans, 0)
  {
    hide *;
    UnitsAreThePayload(payload);
    NoText(units);
    SpansFit(units, spans, 0);
    var owner := ParagraphText(units).1;
    Conserved(units, owner, spans, 0);
    UnitsSplit(Output(units, owner, spans, 0));
    SplitsIs(Output(units, owner, spans, 0), Controls(units[0..]), PlainAfter(units, owner, spans, 0));
    assert units[0..] == units;
  }

  lemma {:induction false} NoText(units: seq<Unit>)
    ensures TextLength(units[..0]) == 0
  {
  }

  lemma {:induction false} SplitsIs(payload: Wide, controls: seq<Wide>, plain: Wide)
    ensures SplitsInto(payload, controls, plain) <==> Split(payload) == Some((controls, plain))
  {
  }
}
