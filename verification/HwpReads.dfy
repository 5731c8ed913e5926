/** What a masked paragraph of a Hangul document reads as (_hwp.py `_paragraph_text` after `_Rewrite`). */
module HwpReads {
  import opened Base
  import opened Rules
  import opened MaskedSpans
  import opened HwpUnits
  import opened HwpRewrite
  import opened HwpMoves
  import opened HwpPositions
  import opened HwpParagraph

  // ---------------------------------------------------------------- reading code units

  predicate Surrogate(p: point) { 0xD800 <= p <= 0xDFFF }

  /** Printable characters without lone surrogates. */
  ghost predicate Clean(text: Text) {
    forall i :: 0 <= i < |text| ==> text[i] >= 32 && !Surrogate(text[i])
  }

  /** An ordinary unit is one whole character. */
  ghost predicate Whole(u: Unit) {
    !u.control ==> |u.text| == 1 && u.text[0] >= 32 && !Surrogate(u.text[0]) && u.raw == EncodePoint(u.text[0])
  }

  ghost predicate AllWhole(units: seq<Unit>) {
    forall k :: 0 <= k < |units| ==> WellFormed(units[k]) && Whole(units[k])
  }

  /** The text of the units, from the front. */
  function TextsOf(units: seq<Unit>): Text {
    if units == [] then [] else units[0].text + TextsOf(units[1..])
  }

  lemma {:induction false} TextsAppend(a: seq<Unit>, b: seq<Unit>)
    ensures TextsOf(a + b) == TextsOf(a) + TextsOf(b)
  {
    if a == [] {
      assert a + b == b;
    } else {
      assert (a + b)[0] == a[0] && (a + b)[1..] == a[1..] + b;
      TextsAppend(a[1..], b);
      Assoc(a[0].text, TextsOf(a[1..]), TextsOf(b));
    }
  }

  lemma {:induction false} TextsOne(u: Unit)
    ensures TextsOf([u]) == u.text
  {
    assert [u][1..] == [];
  }

  lemma {:induction false} TextsAreText(units: seq<Unit>)
    ensures TextsOf(units) == ParagraphText(units).0 && |TextsOf(units)| == TextLength(units)
  {
    if units != [] {
      var n := |units| - 1;
      TextsAreText(units[..n]);
      assert units == units[..n] + [units[n]];
      TextsAppend(units[..n], [units[n]]);
      TextsOne(units[n]);
    }
  }

  /** These code units are read as this text. */
  ghost predicate ReadsAs(wide: Wide, text: Text) {
    UnitsOf(wide).Some? && TextsOf(UnitsOf(wide).value) == text
  }

  lemma {:induction false} ReadNothing()
    ensures ReadsAs([], [])
  {
  }

  /** A unit in front is read first. */
  lemma {:induction false} ReadUnit(u: Unit, rest: Wide, text: Text)
    requires WellFormed(u) && Whole(u) && ReadsAs(rest, text)
    ensures ReadsAs(u.raw + rest, u.text + text)
  {
    var wide := u.raw + rest;
    FrontUnit(u, rest);
    var us := UnitsOf(rest).value;
    assert wide[|u.raw|..] == rest;
    assert ([u] + us)[1..] == us;
  }

  lemma {:induction false} FrontUnit(u: Unit, rest: Wide)
    requires WellFormed(u) && Whole(u)
    ensures u.raw + rest != [] && FirstUnit(u.raw + rest) == Some(u)
  {
    var wide := u.raw + rest;
    assert wide[..|u.raw|] == u.raw && wide[0] == u.raw[0];
    if !u.control {
      FrontPoint(u.text[0], wide);
      assert u.text == [u.text[0]];
    }
  }

  lemma {:induction false} FrontPoint(p: point, wide: Wide)
    requires var n := |EncodePoint(p)|; p >= 32 && !Surrogate(p) && n <= |wide| && wide[..n] == EncodePoint(p)
    ensures wide[0] >= 32 && OrdinaryWidth(wide) == |EncodePoint(p)|
    ensures p == if OrdinaryWidth(wide) == 2 then Paired(wide[0], wide[1]) else wide[0]
  {
    assert wide[0] == wide[..|EncodePoint(p)|][0];
    if |EncodePoint(p)| == 2 { assert wide[1] == wide[..2][1]; }
  }

  lemma {:induction false} ReadPoint(p: point, rest: Wide, text: Text)
    requires p >= 32 && !Surrogate(p) && ReadsAs(rest, text)
    ensures ReadsAs(EncodePoint(p) + rest, [p] + text)
  {
    hide ReadsAs;
    ReadUnit(Unit(false, EncodePoint(p), [p]), rest, text);
  }

  lemma {:induction false} ReadText(m: Text, rest: Wide, text: Text)
    requires Clean(m) && ReadsAs(rest, text)
    ensures ReadsAs(Encode(m) + rest, m + text)
  {
    hide ReadsAs, EncodePoint;
    if m == [] {
      assert Encode(m) + rest == rest && m + text == text;
    } else {
      ReadText(m[1..], rest, text);
      ReadPoint(m[0], Encode(m[1..]) + rest, m[1..] + text);
      Assoc(EncodePoint(m[0]), Encode(m[1..]), rest);
      assert m == [m[0]] + m[1..];
      Assoc([m[0]], m[1..], text);
    }
  }

  lemma {:induction false} ReadUnits(units: seq<Unit>, rest: Wide, text: Text)
    requires AllWhole(units) && ReadsAs(rest, text)
    ensures ReadsAs(Raw(units) + rest, TextsOf(units) + text)
  {
    hide ReadsAs, Whole, WellFormed;
    if units == [] {
      assert Raw(units) + rest == rest && TextsOf(units) + text == text;
    } else {
      ReadUnits(units[1..], rest, text);
      ReadUnit(units[0], Raw(units[1..]) + rest, TextsOf(units[1..]) + text);
      Assoc(units[0].raw, Raw(units[1..]), rest);
      Assoc(units[0].text, TextsOf(units[1..]), text);
    }
  }

  // ---------------------------------------------------------------- what the new paragraph reads as

  /** A span from unit `k` on: the mask, with the characters of its control codes at their places. */
  function SpanText(units: seq<Unit>, s: Span, k: nat, stop: nat, taken: nat): Text
    requires k <= stop <= |units| && s.start < s.end
    decreases stop - k
  {
    if k == stop then Slice(s.mask, taken, |s.mask|)
    else if units[k].control then
      Slice(s.mask, taken, Goal(units, s, k)) + units[k].text + SpanText(units, s, k + 1, stop, Goal(units, s, k))
    else SpanText(units, s, k + 1, stop, taken)
  }

  lemma {:induction false} SliceClean(mask: Text, a: nat, b: nat)
    requires Clean(mask)
    ensures Clean(Slice(mask, a, b))
  {
  }

  lemma {:induction false} SpanTextStep(units: seq<Unit>, s: Span, k: nat, stop: nat, taken: nat)
    requires k <= stop <= |units| && s.start < s.end
    ensures SpanText(units, s, k, stop, taken)
         == if k == stop then Slice(s.mask, taken, |s.mask|)
            else if units[k].control then
              Slice(s.mask, taken, Goal(units, s, k)) + units[k].text + SpanText(units, s, k + 1, stop, Goal(units, s, k))
            else SpanText(units, s, k + 1, stop, taken)
  {
  }

  lemma {:induction false} WholeAt(units: seq<Unit>, k: nat)
    requires AllWhole(units) && k < |units|
    ensures WellFormed(units[k]) && Whole(units[k])
  {
  }

  lemma {:induction false} SpanReads(units: seq<Unit>, s: Span, k: nat, stop: nat, taken: nat, rest: Wide, text: Text)
    requires k <= stop <= |units| && s.start < s.end && AllWhole(units) && Clean(s.mask) && ReadsAs(rest, text)
    ensures ReadsAs(SpanOut(units, s, k, stop, taken) + rest, SpanText(units, s, k, stop, taken) + text)
    decreases stop - k
  {
    hide *;
    SpanTextStep(units, s, k, stop, taken);
    if k == stop {
      SpanEnd(units, s, stop, taken, 0);
      SliceClean(s.mask, taken, |s.mask|);
      ReadText(Slice(s.mask, taken, |s.mask|), rest, text);
    } else {
      SpanOutStep(units, s, k, stop, taken);
      if units[k].control {
        var goal := Goal(units, s, k);
        var part := Slice(s.mask, taken, goal);
        var more, shown := SpanOut(units, s, k + 1, stop, goal), SpanText(units, s, k + 1, stop, goal);
        SpanReads(units, s, k + 1, stop, goal, rest, text);
        WholeAt(units, k);
        ReadUnit(units[k], more + rest, shown + text);
        SliceClean(s.mask, taken, goal);
        ReadText(part, units[k].raw + (more + rest), units[k].text + (shown + text));
        FourTogether(Encode(part), units[k].raw, more, rest);
        FourTogether(part, units[k].text, shown, text);
      } else {
        SpanReads(units, s, k + 1, stop, taken, rest, text);
      }
    }
  }

  lemma {:induction false} FourTogether<T>(a: seq<T>, b: seq<T>, c: seq<T>, d: seq<T>)
    ensures a + b + c + d == a + (b + (c + d))
  {
  }

  /** The text of the new paragraph from unit `cursor` on. */
  function TextAfter(units: seq<Unit>, owner: seq<nat>, spans: seq<Span>, cursor: nat): Text
    requires Fitting(units, owner, spans, cursor)
    decreases |spans|
  {
    if spans == [] then TextsOf(units[cursor..])
    else
      var first, last := owner[spans[0].start], owner[spans[0].end - 1];
      TextsOf(units[cursor..first]) + SpanText(units, Safe(spans[0]), first, last + 1, 0)
      + TextAfter(units, owner, spans[1..], last + 1)
  }

  lemma {:induction false} TextAfterParts(units: seq<Unit>, owner: seq<nat>, spans: seq<Span>, cursor: nat)
    requires Fitting(units, owner, spans, cursor)
    ensures cursor <= |units|
    ensures spans == [] ==> TextAfter(units, owner, spans, cursor) == TextsOf(units[cursor..])
    ensures spans != [] ==>
              var first, last := owner[spans[0].start], owner[spans[0].end - 1];
              && cursor <= first && first <= last && last < |units| && Fitting(units, owner, spans[1..], last + 1)
              && Safe(spans[0]).start < Safe(spans[0]).end
              && TextAfter(units, owner, spans, cursor)
                   == TextsOf(units[cursor..first]) + SpanText(units, Safe(spans[0]), first, last + 1, 0)
                      + TextAfter(units, owner, spans[1..], last + 1)
  {
    FittingParts(units, owner, spans, cursor);
    hide TextsOf, SpanText, TextLength, SafeMask;
  }

  /** All masks, made safe, are whole characters. */
  ghost predicate CleanMasks(spans: seq<Span>) {
    forall j :: 0 <= j < |spans| ==> Clean(SafeMask(spans[j].mask))
  }

  lemma {:induction false} WholePart(units: seq<Unit>, lo: nat, hi: nat)
    requires AllWhole(units) && lo <= hi <= |units|
    ensures AllWhole(units[lo..hi])
  {
    hide Whole, WellFormed;
  }

  lemma {:induction false} CleanRest(spans: seq<Span>)
    requires CleanMasks(spans) && spans != []
    ensures CleanMasks(spans[1..]) && Clean(Safe(spans[0]).mask)
  {
    hide Clean;
  }

  lemma {:induction false} OutputReads(units: seq<Unit>, owner: seq<nat>, spans: seq<Span>, cursor: nat)
    requires AllWhole(units) && CleanMasks(spans) && Fitting(units, owner, spans, cursor)
    ensures ReadsAs(Output(units, owner, spans, cursor), TextAfter(units, owner, spans, cursor))
    decreases |spans|
  {
    hide *;
    FittingParts(units, owner, spans, cursor);
    TextAfterParts(units, owner, spans, cursor);
    if spans == [] {
      LastPart(units, owner, cursor);
      WholePart(units, cursor, |units|);
      assert units[cursor..|units|] == units[cursor..];
      ReadNothing();
      ReadUnits(units[cursor..], [], []);
      Ends(units[cursor..]);
      assert TextsOf(units[cursor..]) + [] == TextsOf(units[cursor..]);
    } else {
      var first, last := owner[spans[0].start], owner[spans[0].end - 1];
      var s := Safe(spans[0]);
      CleanRest(spans);
      OutputReads(units, owner, spans[1..], last + 1);
      var rest, text := Output(units, owner, spans[1..], last + 1), TextAfter(units, owner, spans[1..], last + 1);
      SpanReads(units, s, first, last + 1, 0, rest, text);
      WholePart(units, cursor, first);
      var span, shown := SpanOut(units, s, first, last + 1, 0), SpanText(units, s, first, last + 1, 0);
      ReadUnits(units[cursor..first], span + rest, shown + text);
      OutputParts(units, owner, spans, cursor, 0);
      Assoc(Raw(units[cursor..first]), span, rest);
      Assoc(TextsOf(units[cursor..first]), shown, text);
    }
  }

  // ---------------------------------------------------------------- the spliced text

  /** The characters of control codes among the units `k..stop`. */
  function VisibleCount(units: seq<Unit>, k: nat, stop: nat): nat
    requires k <= stop <= |units|
    decreases stop - k
  {
    if k == stop then 0 else (if units[k].control then |units[k].text| else 0) + VisibleCount(units, k + 1, stop)
  }

  /** The mask comes out whole; it is the whole text exactly if no control code in the span is visible. */
  lemma {:induction false} SpanTextIs(units: seq<Unit>, s: Span, k: nat, stop: nat, taken: nat)
    requires Covers(units, s, k, stop) && taken <= Goal(units, s, k)
    ensures taken <= |s.mask|
    ensures |SpanText(units, s, k, stop, taken)| == |s.mask| - taken + VisibleCount(units, k, stop)
    ensures VisibleCount(units, k, stop) == 0 ==> SpanText(units, s, k, stop, taken) == Slice(s.mask, taken, |s.mask|)
    decreases stop - k
  {
    hide *;
    CoversParts(units, s, k, stop);
    CoversNext(units, s, k, stop);
    SpanTextStep(units, s, k, stop, taken);
    VisibleStep(units, k, stop);
    var goal := Goal(units, s, k);
    var taken' := if units[k].control then goal else taken;
    if k + 1 < stop {
      SpanTextIs(units, s, k + 1, stop, taken');
    } else {
      SpanTextStep(units, s, stop, stop, taken');
      VisibleStep(units, stop, stop);
      SliceLength(s.mask, taken', taken', |s.mask|);
    }
    SliceLength(s.mask, taken, taken', |s.mask|);
    if units[k].control && units[k].text == [] {
      assert Slice(s.mask, taken, goal) + units[k].text == Slice(s.mask, taken, goal);
    }
  }

  lemma {:induction false} VisibleStep(units: seq<Unit>, k: nat, stop: nat)
    requires k <= stop <= |units|
    ensures VisibleCount(units, k, stop)
         == if k == stop then 0 else (if units[k].control then |units[k].text| else 0) + VisibleCount(units, k + 1, stop)
  {
  }

  lemma {:induction false} SliceLength(mask: Text, a: nat, b: nat, c: nat)
    requires a <= b <= c <= |mask|
    ensures |Slice(mask, a, b)| == b - a && |Slice(mask, a, c)| == c - a && |Slice(mask, b, c)| == c - b
    ensures Slice(mask, a, b) + Slice(mask, b, c) == Slice(mask, a, c)
  {
  }

  /** The spans with masks made safe. */
  function SafeAll(spans: seq<Span>): (safe: seq<Span>)
    ensures |safe| == |spans|
  {
    seq(|spans|, j requires 0 <= j < |spans| => Safe(spans[j]))
  }

  /** The characters of control codes inside the spans. */
  ghost function InnerVisible(units: seq<Unit>, owner: seq<nat>, spans: seq<Span>, cursor: nat): nat
    requires Fitting(units, owner, spans, cursor)
    decreases |spans|
  {
    if spans == [] then 0
    else
      VisibleCount(units, owner[spans[0].start], owner[spans[0].end - 1] + 1)
      + InnerVisible(units, owner, spans[1..], owner[spans[0].end - 1] + 1)
  }

  lemma {:induction false} InnerParts(units: seq<Unit>, owner: seq<nat>, spans: seq<Span>, cursor: nat)
    requires Fitting(units, owner, spans, cursor)
    ensures spans == [] ==> InnerVisible(units, owner, spans, cursor) == 0
    ensures spans != [] ==>
              var first, last := owner[spans[0].start], owner[spans[0].end - 1];
              && cursor <= first && first <= last && last < |units| && Fitting(units, owner, spans[1..], last + 1)
              && InnerVisible(units, owner, spans, cursor)
                   == VisibleCount(units, first, last + 1) + InnerVisible(units, owner, spans[1..], last + 1)
  {
    FittingParts(units, owner, spans, cursor);
    hide VisibleCount, TextLength;
  }

  /** A stretch of units has the stretch of text its lengths say. */
  lemma {:induction false} TextStretch(units: seq<Unit>, a: nat, b: nat)
    requires a <= b <= |units|
    ensures TextLength(units[..a]) <= TextLength(units[..b]) <= |TextsOf(units)|
    ensures TextsOf(units[a..b]) == TextsOf(units)[TextLength(units[..a])..TextLength(units[..b])]
  {
    var x, y, z := units[..a], units[a..b], units[b..];
    assert units[..b] == x + y && units == x + y + z;
    TextsAppend(x, y);
    TextsAppend(x + y, z);
    TextsAreText(x);
    TextsAreText(x + y);
  }

  /** The first span in characters. */
  lemma {:induction false} FirstSpan(units: seq<Unit>, owner: seq<nat>, spans: seq<Span>, cursor: nat)
    requires Fitting(units, owner, spans, cursor) && spans != []
    ensures var first, last := owner[spans[0].start], owner[spans[0].end - 1];
            && cursor <= first && first <= last && last < |units|
            && TextLength(units[..first]) == spans[0].start && TextLength(units[..last + 1]) == spans[0].end
  {
    FittingParts(units, owner, spans, cursor);
    var last := owner[spans[0].end - 1];
    TextLengthStep(units, last);
    assert |units[last].text| == 1;
  }

  lemma {:induction false} SafeCons(spans: seq<Span>)
    requires spans != []
    ensures SafeAll(spans) == [Safe(spans[0])] + SafeAll(spans[1..])
  {
    hide SafeMask;
  }

  /** The new text is the old one with the safe masks spliced in, exactly if no control code in a span is visible. */
  lemma {:induction false} TextAfterIs(units: seq<Unit>, owner: seq<nat>, spans: seq<Span>, cursor: nat)
    requires AllFormed(units) && Fitting(units, owner, spans, cursor)
    ensures cursor <= |units| && TextLength(units[..cursor]) <= |TextsOf(units)|
    ensures Ordered(SafeAll(spans), TextLength(units[..cursor]), |TextsOf(units)|)
    ensures var spliced := Replace(TextsOf(units), SafeAll(spans), TextLength(units[..cursor]));
            && |TextAfter(units, owner, spans, cursor)| == |spliced| + InnerVisible(units, owner, spans, cursor)
            && (InnerVisible(units, owner, spans, cursor) == 0 ==> TextAfter(units, owner, spans, cursor) == spliced)
    decreases |spans|
  {
    hide *;
    FittingParts(units, owner, spans, cursor);
    var text, from := TextsOf(units), TextLength(units[..cursor]);
    TextAfterParts(units, owner, spans, cursor);
    InnerParts(units, owner, spans, cursor);
    if spans == [] {
      TextStretch(units, cursor, |units|);
      WholeText(units);
      assert units[cursor..|units|] == units[cursor..];
      NoSafe();
      ReplaceNone(text, from);
    } else {
      var first, last := owner[spans[0].start], owner[spans[0].end - 1];
      var s := Safe(spans[0]);
      SafeParts(spans[0]);
      FirstSpan(units, owner, spans, cursor);
      TextStretch(units, cursor, first);
      TextStretch(units, first, last + 1);
      TextAfterIs(units, owner, spans[1..], last + 1);
      FirstCovers(units, owner, spans, cursor);
      SpanTextIs(units, s, first, last + 1, 0);
      WholeMask(s.mask);
      SafeCons(spans);
      SpliceFirst(text, s, SafeAll(spans[1..]), from);
      Lengths(text[from..s.start], SpanText(units, s, first, last + 1, 0), s.mask,
              TextAfter(units, owner, spans[1..], last + 1), Replace(text, SafeAll(spans[1..]), s.end));
    }
  }

  lemma {:induction false} Lengths(a: Text, b: Text, b': Text, c: Text, c': Text)
    ensures |a + b + c| == |a| + |b| + |c| && |a + b' + c'| == |a| + |b'| + |c'|
    ensures b == b' && c == c' ==> a + b + c == a + b' + c'
  {
  }

  lemma {:induction false} WholeText(units: seq<Unit>)
    ensures TextLength(units[..|units|]) == |TextsOf(units)|
    ensures TextsOf(units)[TextLength(units[..|units|])..] == []
    ensures forall a: nat :: a <= |TextsOf(units)| ==> TextsOf(units)[a..|TextsOf(units)|] == TextsOf(units)[a..]
  {
    assert units[..|units|] == units;
    TextsAreText(units);
  }

  lemma {:induction false} NoSafe()
    ensures SafeAll([]) == []
  {
  }

  lemma {:induction false} SpliceFirst(text: Text, s: Span, rest: seq<Span>, from: nat)
    requires from <= s.start <= s.end && Ordered(rest, s.end, |text|)
    ensures s.end <= |text| && Ordered([s] + rest, from, |text|)
    ensures Replace(text, [s] + rest, from) == text[from..s.start] + s.mask + Replace(text, rest, s.end)
  {
    OrderedBounds(rest, s.end, |text|);
    assert ([s] + rest)[1..] == rest;
  }

  // ---------------------------------------------------------------- the whole paragraph

  /** Characters from 32 on stay, lower ones become spaces. */
  lemma {:induction false} SafeMaskSays(mask: Text)
    ensures var safe := SafeMask(mask);
            && |safe| == |mask| && (forall i :: 0 <= i < |mask| ==> safe[i] == if mask[i] >= 32 then mask[i] else 32)
            && (safe == mask <==> forall i :: 0 <= i < |mask| ==> mask[i] >= 32)
  {
    if SafeMask(mask) == mask {
      assert forall i :: 0 <= i < |mask| ==> SafeMask(mask)[i] == mask[i];
    }
  }

  /** No character that a span covers belongs to a control code. */
  ghost predicate NoControlHit(units: seq<Unit>, spans: seq<Span>) {
    var owner := ParagraphText(units).1;
    forall c :: 0 <= c < |owner| && owner[c] < |units| && Covered(spans, c) ==> !units[owner[c]].control
  }

  lemma {:induction false} VisibleIsHit(units: seq<Unit>, s: Span, k: nat, stop: nat)
    requires AllFormed(units) && k <= stop <= |units|
    ensures VisibleCount(units, k, stop) == 0 <==>
            forall j :: k <= j < stop && units[j].control ==> units[j].text == []
    decreases stop - k
  {
    if k < stop { VisibleIsHit(units, s, k + 1, stop); }
  }

  /** Counting the control characters inside the spans, or looking at the characters the spans cover. */
  lemma {:induction false} InnerIsHit(units: seq<Unit>, spans: seq<Span>, cursor: nat)
    requires AllFormed(units) && Fitting(units, ParagraphText(units).1, spans, cursor)
    requires forall j :: 0 <= j < |spans| ==> spans[j].start < spans[j].end <= TextLength(units)
    ensures InnerVisible(units, ParagraphText(units).1, spans, cursor) == 0 <==> NoControlHit(units, spans)
    decreases |spans|
  {
    hide *;
    var owner := ParagraphText(units).1;
    InnerParts(units, owner, spans, cursor);
    if spans == [] {
      NothingHit(units);
    } else {
      var first, last := owner[spans[0].start], owner[spans[0].end - 1];
      assert forall j :: 0 <= j < |spans[1..]| ==> spans[1..][j] == spans[j + 1];
      InnerIsHit(units, spans[1..], last + 1);
      VisibleIsHit(units, spans[0], first, last + 1);
      OneHit(units, spans[0]);
      HitCons(units, spans);
    }
  }

  lemma {:induction false} NothingHit(units: seq<Unit>)
    ensures NoControlHit(units, [])
  {
  }

  lemma {:induction false} HitCons(units: seq<Unit>, spans: seq<Span>)
    requires spans != []
    ensures NoControlHit(units, spans) <==> NoControlHit(units, [spans[0]]) && NoControlHit(units, spans[1..])
  {
    hide ParagraphText;
    forall c
      ensures Covered(spans, c) <==> Covered([spans[0]], c) || Covered(spans[1..], c)
    {
      CoveredParts(spans, c);
    }
  }

  lemma {:induction false} CoveredParts(spans: seq<Span>, c: int)
    requires spans != []
    ensures Covered(spans, c) <==> Covered([spans[0]], c) || Covered(spans[1..], c)
    ensures Covered([spans[0]], c) <==> spans[0].start <= c < spans[0].end
  {
    assert spans[0] in [spans[0]];
    if Covered(spans, c) {
      var e :| e in spans && e.start <= c < e.end;
      assert e == spans[0] || e in spans[1..];
    }
    if Covered(spans[1..], c) {
      var e :| e in spans[1..] && e.start <= c < e.end;
      assert e in spans;
    }
    assert spans[0] in spans;
  }

  /** In one span: its visible control codes are the owners of the characters it covers. */
  lemma {:induction false} OneHit(units: seq<Unit>, s: Span)
    requires AllFormed(units) && s.start < s.end <= TextLength(units)
    ensures var owner := ParagraphText(units).1;
            && |owner| == TextLength(units)
            && (NoControlHit(units, [s]) <==>
                  forall j :: owner[s.start] <= j < owner[s.end - 1] + 1 && j < |units| && units[j].control ==> units[j].text == [])
  {
    hide ParagraphText, TextLength, AllFormed;
    var owner := ParagraphText(units).1;
    OwnerIs(units);
    forall j: nat | j < |units| && units[j].control && units[j].text != []
      ensures |units[j].text| == 1 && (owner[s.start] <= j < owner[s.end - 1] + 1 <==> s.start <= TextLength(units[..j]) < s.end)
      ensures TextLength(units[..j]) < |owner| && owner[TextLength(units[..j])] == j
    {
      FormedAt(units, j);
      WithinExactly(units, s, j);
      OwnerOfUnit(units, j);
    }
    if NoControlHit(units, [s]) {
      forall j | owner[s.start] <= j < owner[s.end - 1] + 1 && j < |units| && units[j].control
        ensures units[j].text == []
      {
        if units[j].text != [] { CoveredParts([s], TextLength(units[..j])); }
      }
    } else {
      var c :| 0 <= c < |owner| && owner[c] < |units| && Covered([s], c) && units[owner[c]].control;
      CoveredParts([s], c);
      assert |units[owner[c]].text| == 1 && TextLength(units[..owner[c]]) == c;
    }
  }

  lemma {:induction false} FormedAt(units: seq<Unit>, j: nat)
    requires AllFormed(units) && j < |units| && units[j].control
    ensures |units[j].text| <= 1
  {
    assert WellFormed(units[j]);
  }

  /** A unit with a character owns it. */
  lemma {:induction false} OwnerOfUnit(units: seq<Unit>, j: nat)
    requires AllFormed(units) && j < |units| && |units[j].text| == 1
    ensures var c := TextLength(units[..j]); c < TextLength(units) == |ParagraphText(units).1| && ParagraphText(units).1[c] == j
  {
    hide *;
    var c := TextLength(units[..j]);
    TextLengthStep(units, j);
    TextLengthMonotone(units, j + 1, |units|);
    assert units[..|units|] == units;
    OwnerCount(units);
    OwnerAt(units, c);
    var k := ParagraphText(units).1[c];
    if k < j {
      TextLengthStep(units, k);
      TextLengthMonotone(units, k + 1, j);
    } else if j < k {
      TextLengthMonotone(units, j + 1, k);
    }
  }

  lemma {:induction false} OwnerCount(units: seq<Unit>)
    ensures |ParagraphText(units).1| == TextLength(units)
  {
  }

  /** The masks of the spans hold whole characters that need not be made safe. */
  ghost predicate PrintableMasks(spans: seq<Span>) {
    forall j :: 0 <= j < |spans| ==> Clean(spans[j].mask)
  }

  lemma {:induction false} PrintableIsSafe(spans: seq<Span>)
    requires PrintableMasks(spans)
    ensures CleanMasks(spans) && SafeAll(spans) == spans
  {
    forall j | 0 <= j < |spans|
      ensures Safe(spans[j]) == spans[j] && Clean(SafeMask(spans[j].mask))
    {
      SafeMaskSays(spans[j].mask);
    }
    hide SafeMask, Clean;
    assert SafeAll(spans) == spans;
  }

  /** A masked paragraph of whole characters reads as the text with the safe masks spliced in exactly if no character that
      was hit is a control code. */
  lemma {:induction false} SplicedReads(units: seq<Unit>, spans: seq<Span>, spots: seq<Spot>, out: Wide)
    requires AllWhole(units) && TextMasked(units, spans, spots, out) && CleanMasks(spans)
    requires DisjointSpans(spans, TextLength(units))
    ensures Ordered(SafeAll(spans), 0, |ParagraphText(units).0|) && UnitsOf(out).Some?
    ensures ParagraphText(UnitsOf(out).value).0 == Replace(ParagraphText(units).0, SafeAll(spans), 0)
            <==> NoControlHit(units, spans)
  {
    hide *;
    var owner := ParagraphText(units).1;
    WholeIsFormed(units);
    MaskedIsOutput(units, spans, spots, out);
    OutputReads(units, owner, spans, 0);
    ReadsIs(out, TextAfter(units, owner, spans, 0));
    TextAfterIs(units, owner, spans, 0);
    NoText(units);
    TextsAreText(units);
    TextsAreText(UnitsOf(out).value);
    SpanEnds(spans, TextLength(units));
    InnerIsHit(units, spans, 0);
  }

  /** With printable masks that is the masked text. */
  lemma {:induction false} MaskedReads(units: seq<Unit>, rules: seq<Rule>, spans: seq<Span>, spots: seq<Spot>, out: Wide)
    requires AllValid(rules) && AllWhole(units) && TextMasked(units, spans, spots, out)
    requires SpansFor(ParagraphText(units).0, rules, spans) && PrintableMasks(spans)
    ensures UnitsOf(out).Some?
    ensures ParagraphText(UnitsOf(out).value).0 == Masked(ParagraphText(units).0, rules) <==> NoControlHit(units, spans)
  {
    hide *;
    PrintableIsSafe(spans);
    TextsAreText(units);
    SpansSay(ParagraphText(units).0, rules, spans);
    SplicedReads(units, spans, spots, out);
  }

  lemma {:induction false} SpanEnds(spans: seq<Span>, n: nat)
    requires DisjointSpans(spans, n)
    ensures forall j :: 0 <= j < |spans| ==> spans[j].start < spans[j].end <= n
  {
  }

  lemma {:induction false} WholeIsFormed(units: seq<Unit>)
    requires AllWhole(units)
    ensures AllFormed(units)
  {
    hide WellFormed, Whole;
  }

  lemma {:induction false} MaskedIsOutput(units: seq<Unit>, spans: seq<Span>, spots: seq<Spot>, out: Wide)
    requires TextMasked(units, spans, spots, out)
    ensures Fitting(units, ParagraphText(units).1, spans, 0) && out == Output(units, ParagraphText(units).1, spans, 0)
  {
    hide Ascend, Fitting, Output, Spots, UnitsOf, Controls, Plain, PlainAfter;
  }

  lemma {:induction false} ReadsIs(wide: Wide, text: Text)
    requires ReadsAs(wide, text)
    ensures UnitsOf(wide).Some? && TextsOf(UnitsOf(wide).value) == text
  {
  }

  /** What parsing yields is whole as long as no unit shows a lone surrogate. */
  lemma {:induction false} ParsedIsWhole(payload: Wide)
    requires UnitsOf(payload).Some?
    requires var us := UnitsOf(payload).value; forall k, i :: 0 <= k < |us| && 0 <= i < |us[k].text| ==> !Surrogate(us[k].text[i])
    ensures AllWhole(UnitsOf(payload).value)
  {
    if payload != [] {
      var u := FirstUnit(payload).value;
      var rest := UnitsOf(payload[|u.raw|..]).value;
      var us := UnitsOf(payload).value;
      assert us[0] == u && us[1..] == rest;
      assert forall k :: 0 <= k < |rest| ==> rest[k] == us[k + 1];
      UnitsAreThePayload(payload);
      assert us[0].control || (WellFormed(us[0]) && !Surrogate(us[0].text[0]));
      FirstIsWhole(payload);
      hide FirstUnit, WellFormed, Whole;
      ParsedIsWhole(payload[|u.raw|..]);
    }
  }

  lemma {:induction false} FirstIsWhole(payload: Wide)
    requires payload != [] && FirstUnit(payload).Some?
    requires var u := FirstUnit(payload).value; u.control || !Surrogate(u.text[0])
    ensures WellFormed(FirstUnit(payload).value) && Whole(FirstUnit(payload).value)
  {
  }
}
