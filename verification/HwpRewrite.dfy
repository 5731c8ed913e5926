/** Rewriting one paragraph (_hwp.py `_Rewrite`): masks replace ordinary characters, control codes stay. */
module HwpRewrite {
  import opened Base
  import opened HwpUnits
  import opened Rounding

  /** Characters `start..end` of the searched text and what replaces them. */
  type Span = Edit<point>

  /** Where a unit ended up: kept at a place of the new text, or removed with a place that stands for it. */
  datatype Spot = Kept(at: nat) | Removed(at: nat)

  /** `_safe_mask`: control characters of a mask would be read as structure. */
  function SafeMask(mask: seq<point>): (safe: seq<point>)
    ensures |safe| == |mask| && forall i :: 0 <= i < |safe| ==> safe[i] >= 32
  {
    seq(|mask|, i requires 0 <= i < |mask| => if mask[i] < 32 then 32 else mask[i])
  }

  function EncodePoint(p: point): (raw: Wide)
    ensures |raw| == 1 || |raw| == 2
    ensures p >= 32 ==> Ordinary(raw)
  {
    if p < 0x1_0000 then [p] else [0xD800 + (p - 0x1_0000) / 0x400, 0xDC00 + (p - 0x1_0000) % 0x400]
  }

  /** `text.encode("utf-16-le", errors="surrogatepass")`. */
  function Encode(text: seq<point>): Wide {
    if text == [] then [] else EncodePoint(text[0]) + Encode(text[1..])
  }

  // ---------------------------------------------------------------- what the new paragraph is

  /** How far into the mask unit `k` of a span belongs: in proportion to its place in the original. A visible control
      at the end of the span (a paragraph end) goes behind the mask. */
  function Goal(units: seq<Unit>, s: Span, k: nat): (at: nat)
    requires k <= |units| && s.start < s.end
    ensures k < |units| ==> at <= |s.mask|
  {
    var length, size := s.end - s.start, |s.mask|;
    var before := TextLength(units[..k]);
    var offset := if before < s.start then 0 else before - s.start;
    if k < |units| && units[k].control && |units[k].text| > 0 && offset >= length - 1 then size
    else if offset >= length then size
    else RoundWithin(offset, size, length); Round(offset * size, length)
  }

  /** The new code units of a span from unit `k` on, when `taken` characters of its mask are already written. */
  function SpanOut(units: seq<Unit>, s: Span, k: nat, stop: nat, taken: nat): Wide
    requires k <= stop <= |units| && s.start < s.end
    decreases stop - k
  {
    if k == stop then Encode(Slice(s.mask, taken, |s.mask|))
    else if units[k].control then
      Encode(Slice(s.mask, taken, Goal(units, s, k))) + units[k].raw + SpanOut(units, s, k + 1, stop, Goal(units, s, k))
    else SpanOut(units, s, k + 1, stop, taken)
  }

  /** Where the units of a span end up; `written` code units come before. */
  function SpanSpots(units: seq<Unit>, s: Span, k: nat, stop: nat, taken: nat, written: nat): (spots: seq<Spot>)
    requires k <= stop <= |units| && s.start < s.end
    ensures |spots| == stop - k
    decreases stop - k
  {
    if k == stop then []
    else
      var at := written + |Encode(Slice(s.mask, taken, Goal(units, s, k)))|;
      if units[k].control then
        [Kept(at)] + SpanSpots(units, s, k + 1, stop, Goal(units, s, k), at + |units[k].raw|)
      else [Removed(at)] + SpanSpots(units, s, k + 1, stop, taken, written)
  }

  function GapSpots(units: seq<Unit>, written: nat): (spots: seq<Spot>)
    ensures |spots| == |units|
  {
    if units == [] then [] else [Kept(written)] + GapSpots(units[1..], written + |units[0].raw|)
  }

  /** The spans lie in order on the units from `cursor` on. */
  ghost predicate Fitting(units: seq<Unit>, owner: seq<nat>, spans: seq<Span>, cursor: nat) {
    if spans == [] then cursor <= |units|
    else
      && spans[0].start < spans[0].end <= |owner|
      && cursor <= owner[spans[0].start] <= owner[spans[0].end - 1] < |units|
      && TextLength(units[..owner[spans[0].start]]) == spans[0].start
      && TextLength(units[..owner[spans[0].end - 1]]) == spans[0].end - 1
      && |units[owner[spans[0].end - 1]].text| == 1
      && Fitting(units, owner, spans[1..], owner[spans[0].end - 1] + 1)
  }

  function Safe(s: Span): Span {
    s.(mask := SafeMask(s.mask))
  }

  /** The new paragraph from unit `cursor` on. */
  function Output(units: seq<Unit>, owner: seq<nat>, spans: seq<Span>, cursor: nat): Wide
    requires Fitting(units, owner, spans, cursor)
    decreases |spans|
  {
    if spans == [] then Raw(units[cursor..])
    else
      var first, last := owner[spans[0].start], owner[spans[0].end - 1];
      Raw(units[cursor..first]) + SpanOut(units, Safe(spans[0]), first, last + 1, 0) + Output(units, owner, spans[1..], last + 1)
  }

  function Spots(units: seq<Unit>, owner: seq<nat>, spans: seq<Span>, cursor: nat, written: nat): (spots: seq<Spot>)
    requires Fitting(units, owner, spans, cursor)
    ensures |spots| == if cursor <= |units| then |units| - cursor else 0
    decreases |spans|
  {
    if spans == [] then GapSpots(units[cursor..], written)
    else
      var first, last := owner[spans[0].start], owner[spans[0].end - 1];
      var at := written + |Raw(units[cursor..first])|;
      GapSpots(units[cursor..first], written)
      + SpanSpots(units, Safe(spans[0]), first, last + 1, 0, at)
      + Spots(units, owner, spans[1..], last + 1, at + |SpanOut(units, Safe(spans[0]), first, last + 1, 0)|)
  }

  /** Disjoint spans of the searched text lie in order on its units. */
  lemma {:induction false} SpansFit(units: seq<Unit>, spans: seq<Span>, cursor: nat)
    requires AllFormed(units) && DisjointSpans(spans, TextLength(units)) && cursor <= |units|
    requires spans != [] ==> TextLength(units[..cursor]) <= spans[0].start
    ensures Fitting(units, ParagraphText(units).1, spans, cursor)
    decreases |spans|
  {
    hide *;
    var owner := ParagraphText(units).1;
    if spans != [] {
      var s := spans[0];
      RestDisjoint(spans, TextLength(units));
      OwnerAt(units, s.start);
      OwnerAt(units, s.end - 1);
      var first, last := owner[s.start], owner[s.end - 1];
      TextLengthStep(units, last);
      InOrder(units, cursor, first, s.start);
      InOrder(units, first, last, s.end - 1);
      SpansFit(units, spans[1..], last + 1);
    }
    FittingFrom(units, owner, spans, cursor);
  }

  lemma {:induction false} FittingFrom(units: seq<Unit>, owner: seq<nat>, spans: seq<Span>, cursor: nat)
    requires cursor <= |units|
    requires spans != [] ==>
               && spans[0].start < spans[0].end <= |owner|
               && cursor <= owner[spans[0].start] <= owner[spans[0].end - 1] < |units|
               && TextLength(units[..owner[spans[0].start]]) == spans[0].start
               && TextLength(units[..owner[spans[0].end - 1]]) == spans[0].end - 1
               && |units[owner[spans[0].end - 1]].text| == 1
               && Fitting(units, owner, spans[1..], owner[spans[0].end - 1] + 1)
    ensures Fitting(units, owner, spans, cursor)
  {
  }

  lemma {:induction false} OwnerAt(units: seq<Unit>, c: nat)
    requires AllFormed(units) && c < TextLength(units)
    ensures var k := ParagraphText(units).1[c];
            k < |units| && |units[k].text| == 1 && TextLength(units[..k]) == c
  {
    hide TextLength, ParagraphText, AllFormed;
    OwnerIs(units);
  }

  lemma {:induction false} RestDisjoint(spans: seq<Span>, n: nat)
    requires DisjointSpans(spans, n) && spans != []
    ensures spans[0].start < spans[0].end <= n
    ensures DisjointSpans(spans[1..], n) && (spans[1..] != [] ==> spans[0].end <= spans[1..][0].start)
  {
  }

  /** A unit with more visible text before it comes later. */
  lemma {:induction false} InOrder(units: seq<Unit>, a: nat, b: nat, n: nat)
    requires a <= |units| && b < |units| && TextLength(units[..a]) <= n && TextLength(units[..b]) == n && |units[b].text| == 1
    ensures a <= b
  {
    if b < a {
      TextLengthStep(units, b);
      TextLengthMonotone(units, b + 1, a);
    }
  }

  // ---------------------------------------------------------------- the masks are laid out in order

  /** Later units of a span belong later in its mask, so the place already taken is never passed. */
  lemma {:induction false} GoalMonotone(units: seq<Unit>, s: Span, j: nat, k: nat)
    requires j < k <= |units| && s.start < s.end && TextLength(units[..k]) <= s.end
    requires k < |units| ==> TextLength(units[..k]) < s.end
    requires s.start <= TextLength(units[..j])
    ensures Goal(units, s, j) <= if k < |units| then Goal(units, s, k) else |s.mask|
  {
    TextLengthStep(units, j);
    TextLengthMonotone(units, j + 1, k);
    var length, size := s.end - s.start, |s.mask|;
    var oj, ok := TextLength(units[..j]) - s.start, TextLength(units[..k]) - s.start;
    if k < |units| {
      assert oj <= ok < length;
      assert oj * size <= ok * size;
      RoundMonotone(oj * size, ok * size, length);
      RoundWithin(ok, size, length);
    }
  }

  // ---------------------------------------------------------------- doing it

  /** Units outside the spans are copied. */
  method EmitGap(units: seq<Unit>, lo: nat, hi: nat, out0: Wide, spots0: seq<Spot>) returns (out: Wide, spots: seq<Spot>)
    requires lo <= hi <= |units|
    ensures out == out0 + Raw(units[lo..hi]) && spots == spots0 + GapSpots(units[lo..hi], |out0|)
  {
    out, spots := out0, spots0;
    for k := lo to hi
      invariant out + Raw(units[k..hi]) == out0 + Raw(units[lo..hi])
      invariant spots + GapSpots(units[k..hi], |out|) == spots0 + GapSpots(units[lo..hi], |out0|)
    {
      GapStep(units, k, hi, out);
      GapSpotStep(units, k, hi, |out|, spots);
      spots := spots + [Kept(|out|)];
      out := out + units[k].raw;
    }
    assert units[hi..hi] == [];
  }

  lemma {:induction false} GapStep(units: seq<Unit>, k: nat, hi: nat, out: Wide)
    requires k < hi <= |units|
    ensures out + Raw(units[k..hi]) == out + units[k].raw + Raw(units[k + 1..hi])
  {
    hide *;
    GapParts(units, k, hi, 0);
    Assoc(out, units[k].raw, Raw(units[k + 1..hi]));
  }

  lemma {:induction false} GapSpotStep(units: seq<Unit>, k: nat, hi: nat, written: nat, spots: seq<Spot>)
    requires k < hi <= |units|
    ensures spots + GapSpots(units[k..hi], written)
         == spots + [Kept(written)] + GapSpots(units[k + 1..hi], written + |units[k].raw|)
  {
    hide *;
    GapParts(units, k, hi, written);
    Assoc(spots, [Kept(written)], GapSpots(units[k + 1..hi], written + |units[k].raw|));
  }

  lemma {:induction false} GapParts(units: seq<Unit>, k: nat, hi: nat, written: nat)
    requires k < hi <= |units|
    ensures Raw(units[k..hi]) == units[k].raw + Raw(units[k + 1..hi])
    ensures GapSpots(units[k..hi], written) == [Kept(written)] + GapSpots(units[k + 1..hi], written + |units[k].raw|)
  {
    assert units[k..hi][1..] == units[k + 1..hi];
  }

  lemma {:induction false} SpanStep(units: seq<Unit>, s: Span, k: nat, stop: nat, taken: nat, out: Wide, spots: seq<Spot>)
    requires k < stop <= |units| && s.start < s.end
    ensures var goal := Goal(units, s, k);
            var part := Encode(Slice(s.mask, taken, goal));
            if units[k].control then
              && out + SpanOut(units, s, k, stop, taken)
                   == out + part + units[k].raw + SpanOut(units, s, k + 1, stop, goal)
              && spots + SpanSpots(units, s, k, stop, taken, |out|)
                   == spots + [Kept(|out| + |part|)] + SpanSpots(units, s, k + 1, stop, goal, |out| + |part| + |units[k].raw|)
            else
              && out + SpanOut(units, s, k, stop, taken) == out + SpanOut(units, s, k + 1, stop, taken)
              && spots + SpanSpots(units, s, k, stop, taken, |out|)
                   == spots + [Removed(|out| + |part|)] + SpanSpots(units, s, k + 1, stop, taken, |out|)
  {
    hide Encode, Slice, Goal;
    var goal := Goal(units, s, k);
    var part := Encode(Slice(s.mask, taken, goal));
    if units[k].control {
      Assoc(part, units[k].raw, SpanOut(units, s, k + 1, stop, goal));
      Assoc(out, part, units[k].raw + SpanOut(units, s, k + 1, stop, goal));
      Assoc(out + part, units[k].raw, SpanOut(units, s, k + 1, stop, goal));
      Assoc(spots, [Kept(|out| + |part|)], SpanSpots(units, s, k + 1, stop, goal, |out| + |part| + |units[k].raw|));
    } else {
      Assoc(spots, [Removed(|out| + |part|)], SpanSpots(units, s, k + 1, stop, taken, |out|));
    }
  }

  /** The proportional place, clamped to the mask. */
  function InProportion(offset: nat, size: nat, length: nat): nat
    requires length > 0
  {
    if offset <= 0 then 0 else if offset >= length then size else Round(offset * size, length)
  }

  /** The place a unit asks for, branch by branch; `taken` never has to push it back. */
  method Place(units: seq<Unit>, s: Span, k: nat, taken: nat, chars: nat) returns (at: nat)
    requires k < |units| && s.start < s.end && chars == TextLength(units[..k]) && s.start <= chars < s.end
    requires AllFormed(units) && taken <= Goal(units, s, k)
    ensures at == Goal(units, s, k)
  {
    hide *;
    var length: nat, size: nat := s.end - s.start, |s.mask|;
    var offset: nat := chars - s.start;
    GoalIs(units, s, k);
    if units[k].control {
      if |units[k].text| > 0 {
        at := if offset >= length - 1 then size else InProportion(offset, size, length);
      } else {
        at := InProportion(offset, size, length);
      }
      at := Later(at, taken);
    } else {
      var there: nat := RoundedPlace(offset, size, length);
      at := Later(there, taken);
    }
  }

  /** `max(at, taken)`. */
  function Later(at: nat, taken: nat): (m: nat)
    ensures taken <= at ==> m == at
  {
    if at < taken then taken else at
  }

  /** `min(size, round(offset * size / length))`. */
  function RoundedPlace(offset: nat, size: nat, length: nat): nat
    requires length > 0
  {
    if size < Round(offset * size, length) then size else Round(offset * size, length)
  }

  /** The place a unit asks for, by its kind. */
  lemma {:induction false} GoalIs(units: seq<Unit>, s: Span, k: nat)
    requires k < |units| && s.start <= TextLength(units[..k]) < s.end
    ensures var length, size := s.end - s.start, |s.mask|;
            var offset := TextLength(units[..k]) - s.start;
            && InProportion(offset, size, length) <= size && RoundedPlace(offset, size, length) <= size
            && RoundedPlace(offset, size, length) == InProportion(offset, size, length)
            && Goal(units, s, k) == if units[k].control && |units[k].text| > 0 && offset >= length - 1 then size
                                    else InProportion(offset, size, length)
  {
    hide Round, TextLength;
    var length, size := s.end - s.start, |s.mask|;
    var offset := TextLength(units[..k]) - s.start;
    RoundWithin(offset, size, length);
    assert offset == 0 ==> offset * size == 0;
  }

  lemma {:induction false} TakenFits(units: seq<Unit>, s: Span, k: nat, stop: nat)
    requires k < stop <= |units| && s.start < s.end && s.start <= TextLength(units[..k])
    requires TextLength(units[..stop - 1]) < s.end
    ensures k + 1 < stop ==> Goal(units, s, k) <= Goal(units, s, k + 1)
    ensures s.start <= TextLength(units[..k]) < s.end && s.start <= TextLength(units[..k + 1])
  {
    TextLengthStep(units, k);
    TextLengthMonotone(units, k, stop - 1);
    if k + 1 < stop {
      TextLengthMonotone(units, k + 1, stop - 1);
      GoalMonotone(units, s, k, k + 1);
    }
  }

  lemma {:induction false} EmptySlice(mask: seq<point>, a: nat)
    ensures Encode(Slice(mask, a, a)) == []
  {
  }

  /** One span: control codes at their places in the mask, ordinary characters gone. */
  method EmitSpan(units: seq<Unit>, s: Span, first: nat, stop: nat, out0: Wide, spots0: seq<Spot>)
    returns (out: Wide, spots: seq<Spot>)
    requires AllFormed(units) && first < stop <= |units| && s.start < s.end
    requires TextLength(units[..first]) == s.start && TextLength(units[..stop - 1]) == s.end - 1
    ensures out == out0 + SpanOut(units, s, first, stop, 0)
    ensures spots == spots0 + SpanSpots(units, s, first, stop, 0, |out0|)
  {
    hide SpanOut, SpanSpots, Goal, AllFormed, TextLength, Encode, Slice;
    out, spots := out0, spots0;
    var taken := 0;
    var chars := s.start;
    for k := first to stop
      invariant k < stop ==> taken <= Goal(units, s, k)
      invariant chars == TextLength(units[..k]) && s.start <= chars
      invariant out + SpanOut(units, s, k, stop, taken) == out0 + SpanOut(units, s, first, stop, 0)
      invariant spots + SpanSpots(units, s, k, stop, taken, |out|) == spots0 + SpanSpots(units, s, first, stop, 0, |out0|)
    {
      TakenFits(units, s, k, stop);
      TextLengthStep(units, k);
      SpanStep(units, s, k, stop, taken, out, spots);
      var at := Place(units, s, k, taken, chars);
      if units[k].control {
        if at > taken {
          out := out + Encode(Slice(s.mask, taken, at));
          taken := at;
        } else {
          EmptySlice(s.mask, taken);
        }
        spots := spots + [Kept(|out|)];
        out := out + units[k].raw;
      } else {
        spots := spots + [Removed(|out| + |Encode(Slice(s.mask, taken, at))|)];
      }
      chars := chars + |units[k].text|;
    }
    SpanEnd(units, s, stop, taken, |out|);
    if taken < |s.mask| {
      out := out + Encode(Slice(s.mask, taken, |s.mask|));
    } else {
      NothingLeft(s.mask, taken);
    }
  }

  lemma {:induction false} NothingLeft(mask: seq<point>, taken: nat)
    requires taken >= |mask|
    ensures Encode(Slice(mask, taken, |mask|)) == []
  {
  }

  lemma {:induction false} SpanEnd(units: seq<Unit>, s: Span, stop: nat, taken: nat, written: nat)
    requires stop <= |units| && s.start < s.end
    ensures SpanOut(units, s, stop, stop, taken) == Encode(Slice(s.mask, taken, |s.mask|))
    ensures SpanSpots(units, s, stop, stop, taken, written) == []
  {
  }

  lemma {:induction false} FittingParts(units: seq<Unit>, owner: seq<nat>, spans: seq<Span>, cursor: nat)
    requires Fitting(units, owner, spans, cursor)
    ensures cursor <= |units|
    ensures spans != [] ==>
              && spans[0].start < spans[0].end <= |owner|
              && cursor <= owner[spans[0].start] <= owner[spans[0].end - 1] < |units|
              && TextLength(units[..owner[spans[0].start]]) == spans[0].start
              && TextLength(units[..owner[spans[0].end - 1]]) == spans[0].end - 1
              && Fitting(units, owner, spans[1..], owner[spans[0].end - 1] + 1)
  {
    if spans != [] { FittingParts(units, owner, spans[1..], owner[spans[0].end - 1] + 1); }
  }

  lemma {:induction false} OutputStep(units: seq<Unit>, owner: seq<nat>, spans: seq<Span>, cursor: nat, out: Wide, spots: seq<Spot>)
    requires Fitting(units, owner, spans, cursor) && spans != []
    ensures var first, last := owner[spans[0].start], owner[spans[0].end - 1];
            && first <= last && last < |units| && cursor <= first && Fitting(units, owner, spans[1..], last + 1)
            && var gap, s := Raw(units[cursor..first]), SpanOut(units, Safe(spans[0]), first, last + 1, 0);
            && out + Output(units, owner, spans, cursor) == out + gap + s + Output(units, owner, spans[1..], last + 1)
            && spots + Spots(units, owner, spans, cursor, |out|)
                 == spots + GapSpots(units[cursor..first], |out|)
                    + SpanSpots(units, Safe(spans[0]), first, last + 1, 0, |out| + |gap|)
                    + Spots(units, owner, spans[1..], last + 1, |out| + |gap| + |s|)
  {
    hide *;
    FittingParts(units, owner, spans, cursor);
    OutputParts(units, owner, spans, cursor, |out|);
    var first, last := owner[spans[0].start], owner[spans[0].end - 1];
    var gap, s := Raw(units[cursor..first]), SpanOut(units, Safe(spans[0]), first, last + 1, 0);
    Assoc4(out, gap, s, Output(units, owner, spans[1..], last + 1));
    Assoc4(spots, GapSpots(units[cursor..first], |out|), SpanSpots(units, Safe(spans[0]), first, last + 1, 0, |out| + |gap|),
           Spots(units, owner, spans[1..], last + 1, |out| + |gap| + |s|));
  }

  lemma {:induction false} OutputParts(units: seq<Unit>, owner: seq<nat>, spans: seq<Span>, cursor: nat, written: nat)
    requires Fitting(units, owner, spans, cursor) && spans != []
    ensures var first, last := owner[spans[0].start], owner[spans[0].end - 1];
            && first <= last && last < |units| && cursor <= first && Fitting(units, owner, spans[1..], last + 1)
            && Safe(spans[0]).start < Safe(spans[0]).end
            && var gap, s := Raw(units[cursor..first]), SpanOut(units, Safe(spans[0]), first, last + 1, 0);
            && Output(units, owner, spans, cursor) == gap + s + Output(units, owner, spans[1..], last + 1)
            && Spots(units, owner, spans, cursor, written)
                 == GapSpots(units[cursor..first], written)
                    + SpanSpots(units, Safe(spans[0]), first, last + 1, 0, written + |gap|)
                    + Spots(units, owner, spans[1..], last + 1, written + |gap| + |s|)
  {
    hide GapSpots, SpanSpots, SpanOut, Raw, TextLength;
  }

  /** The constructor: the new paragraph and where every unit went. */
  method Rewrite(units: seq<Unit>, owner: seq<nat>, spans: seq<Span>) returns (out: Wide, spots: seq<Spot>)
    requires AllFormed(units) && Fitting(units, owner, spans, 0)
    ensures out == Output(units, owner, spans, 0) && spots == Spots(units, owner, spans, 0, 0)
  {
    hide *;
    out, spots := [], [];
    var cursor := 0;
    StartWith(Output(units, owner, spans, 0));
    StartWith(Spots(units, owner, spans, 0, 0));
    assert spans[0..] == spans;
    for i := 0 to |spans|
      invariant Fitting(units, owner, spans[i..], cursor)
      invariant out + Output(units, owner, spans[i..], cursor) == Output(units, owner, spans, 0)
      invariant spots + Spots(units, owner, spans[i..], cursor, |out|) == Spots(units, owner, spans, 0, 0)
    {
      ghost var rest := spans[i..];
      assert rest[0] == spans[i] && rest[1..] == spans[i + 1..];
      FittingParts(units, owner, rest, cursor);
      OutputStep(units, owner, rest, cursor, out, spots);
      var first, last := owner[spans[i].start], owner[spans[i].end - 1];
      SafeParts(spans[i]);
      out, spots := EmitGap(units, cursor, first, out, spots);
      out, spots := EmitSpan(units, Safe(spans[i]), first, last + 1, out, spots);
      cursor := last + 1;
    }
    assert spans[|spans|..] == [];
    FittingParts(units, owner, [], cursor);
    LastGap(units, owner, cursor, |out|);
    out, spots := EmitGap(units, cursor, |units|, out, spots);
  }

  lemma {:induction false} StartWith<T>(s: seq<T>)
    ensures [] + s == s
  {
  }

  lemma {:induction false} SafeParts(s: Span)
    ensures Safe(s).start == s.start && Safe(s).end == s.end && Safe(s).mask == SafeMask(s.mask)
  {
  }

  lemma {:induction false} LastGap(units: seq<Unit>, owner: seq<nat>, cursor: nat, written: nat)
    requires Fitting(units, owner, [], cursor)
    ensures cursor <= |units| && units[cursor..] == units[cursor..|units|]
    ensures Output(units, owner, [], cursor) == Raw(units[cursor..|units|])
    ensures Spots(units, owner, [], cursor, written) == GapSpots(units[cursor..|units|], written)
  {
    assert units[cursor..] == units[cursor..|units|];
  }
}
