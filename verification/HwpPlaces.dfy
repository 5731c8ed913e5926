/** Where the units of a rewritten span end up, place by place (_hwp.py `_Rewrite`). */
module HwpPlaces {
  import opened Base
  import opened Rounding
  import opened HwpUnits
  import opened HwpRewrite
  import opened HwpMoves

  /** A unit comes as near as whole characters can be to its proportional place in the mask, halves to the even one; only a
      control code that shows as the last character of the span comes behind the whole mask. */
  lemma {:induction false} GoalSays(units: seq<Unit>, s: Span, k: nat, m: nat)
    requires k < |units| && s.start <= TextLength(units[..k]) < s.end
    ensures var length, offset := s.end - s.start, TextLength(units[..k]) - s.start;
            if units[k].control && units[k].text != [] && offset == length - 1 then Goal(units, s, k) == |s.mask|
            else m == Goal(units, s, k) <==> Nearest(offset * |s.mask|, length, m)
  {
    var length, offset := s.end - s.start, TextLength(units[..k]) - s.start;
    hide Round, Nearest, TextLength;
    NearestIsRound(offset * |s.mask|, length, m);
  }

  /** The code units of the control codes among the units `k..i`. */
  function ControlsLength(units: seq<Unit>, k: nat, i: nat): nat
    requires k <= i <= |units|
    decreases i - k
  {
    if k == i then 0 else (if units[k].control then |units[k].raw| else 0) + ControlsLength(units, k + 1, i)
  }

  lemma {:induction false} EncodedParts(mask: Text, a: nat, b: nat, c: nat)
    requires a <= b <= c <= |mask|
    ensures |Encode(Slice(mask, a, c))| == |Encode(Slice(mask, a, b))| + |Encode(Slice(mask, b, c))|
  {
    assert Slice(mask, a, c) == Slice(mask, a, b) + Slice(mask, b, c);
    EncodeJoin(Slice(mask, a, b), Slice(mask, b, c));
  }

  /** Every unit of a span, kept or removed, has its place behind the part of the mask that comes before it and the control
      codes that come before it; a unit is kept exactly if it is a control code. */
  lemma {:induction false} SpanSpotsSay(units: seq<Unit>, s: Span, k: nat, stop: nat, taken: nat, written: nat, i: nat)
    requires k <= i < stop <= |units| && s.start < s.end && AllFormed(units)
    requires s.start <= TextLength(units[..k]) && TextLength(units[..stop - 1]) < s.end
    requires taken <= Goal(units, s, k)
    ensures Goal(units, s, i) <= |s.mask|
    ensures var spot := SpanSpots(units, s, k, stop, taken, written)[i - k];
            && spot.Kept? == units[i].control
            && spot.at == written + |Encode(Slice(s.mask, taken, Goal(units, s, i)))| + ControlsLength(units, k, i)
    decreases i - k
  {
    hide *;
    SpotsOne(units, s, k, stop, taken, written, i);
    LengthOne(units, k, i);
    GoalBound(units, s, i);
    if k < i {
      TakenFits(units, s, k, stop);
      var goal := Goal(units, s, k);
      GoalsRise(units, s, k, i, stop);
      if units[k].control {
        var at := written + |Encode(Slice(s.mask, taken, goal))| + |units[k].raw|;
        SpanSpotsSay(units, s, k + 1, stop, goal, at, i);
        EncodedParts(s.mask, taken, goal, Goal(units, s, i));
      } else {
        SpanSpotsSay(units, s, k + 1, stop, taken, written, i);
      }
    }
  }

  lemma {:induction false} GoalBound(units: seq<Unit>, s: Span, i: nat)
    requires i < |units| && s.start < s.end
    ensures Goal(units, s, i) <= |s.mask|
  {
  }

  lemma {:induction false} GoalsRise(units: seq<Unit>, s: Span, k: nat, i: nat, stop: nat)
    requires k < i < stop <= |units| && s.start < s.end && s.start <= TextLength(units[..k])
    requires TextLength(units[..stop - 1]) < s.end
    ensures Goal(units, s, k) <= Goal(units, s, i)
  {
    hide Goal;
    TextLengthMonotone(units, i, stop - 1);
    GoalMonotone(units, s, k, i);
  }

  lemma {:induction false} SpotsOne(units: seq<Unit>, s: Span, k: nat, stop: nat, taken: nat, written: nat, i: nat)
    requires k <= i < stop <= |units| && s.start < s.end
    ensures var spots, at := SpanSpots(units, s, k, stop, taken, written), written + |Encode(Slice(s.mask, taken, Goal(units, s, k)))|;
            && |spots| == stop - k
            && spots[0] == (if units[k].control then Kept(at) else Removed(at))
            && (k < i ==> spots[i - k] == (if units[k].control then
                                             SpanSpots(units, s, k + 1, stop, Goal(units, s, k), at + |units[k].raw|)[i - (k + 1)]
                                           else SpanSpots(units, s, k + 1, stop, taken, written)[i - (k + 1)]))
  {
    hide Goal, Encode, Slice;
  }

  lemma {:induction false} LengthOne(units: seq<Unit>, k: nat, i: nat)
    requires k <= i <= |units|
    ensures ControlsLength(units, k, i)
         == if k == i then 0 else (if units[k].control then |units[k].raw| else 0) + ControlsLength(units, k + 1, i)
  {
  }
}
