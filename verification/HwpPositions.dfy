/** Old positions in new text, and the side tables that hold positions (_hwp.py `position`, `_mask_paragraph`). */
module HwpPositions {
  import opened Base
  import opened HwpUnits
  import opened HwpRewrite
  import opened HwpMoves

  // ---------------------------------------------------------------- spots come in order

  function Reach(u: Unit, spot: Spot): nat {
    spot.at + if spot.Kept? then |u.raw| else 0
  }

  /** Every unit lies behind the one before it, between `lo` and `hi`. */
  ghost predicate Ascend(units: seq<Unit>, spots: seq<Spot>, lo: nat, hi: nat) {
    |units| == |spots|
    && if units == [] then lo <= hi
       else lo <= spots[0].at && Ascend(units[1..], spots[1..], Reach(units[0], spots[0]), hi)
  }

  lemma {:induction false} AscendJoin(a: seq<Unit>, p: seq<Spot>, b: seq<Unit>, q: seq<Spot>, lo: nat, mid: nat, hi: nat)
    requires Ascend(a, p, lo, mid) && Ascend(b, q, mid, hi)
    ensures Ascend(a + b, p + q, lo, hi)
  {
    if a == [] {
      assert a + b == b && p + q == q;
      AscendLower(b, q, lo, mid, hi);
    } else {
      assert (a + b)[0] == a[0] && (a + b)[1..] == a[1..] + b && (p + q)[0] == p[0] && (p + q)[1..] == p[1..] + q;
      AscendJoin(a[1..], p[1..], b, q, Reach(a[0], p[0]), mid, hi);
    }
  }

  lemma {:induction false} AscendLower(units: seq<Unit>, spots: seq<Spot>, lo: nat, mid: nat, hi: nat)
    requires Ascend(units, spots, mid, hi) && lo <= mid
    ensures Ascend(units, spots, lo, hi)
  {
  }

  lemma {:induction false} GapAscend(units: seq<Unit>, written: nat)
    ensures Ascend(units, GapSpots(units, written), written, written + |Raw(units)|)
  {
    if units != [] { GapAscend(units[1..], written + |units[0].raw|); }
  }

  lemma {:induction false} PartGrows(mask: seq<point>, a: nat, b: nat, c: nat)
    requires a <= b <= c <= |mask|
    ensures |Encode(Slice(mask, a, c))| == |Encode(Slice(mask, a, b))| + |Encode(Slice(mask, b, c))|
  {
    hide *;
    EncodeSlices(mask, a, b, c);
  }

  lemma {:induction false} SpanAscend(units: seq<Unit>, s: Span, k: nat, stop: nat, taken: nat, written: nat, lo: nat)
    requires Covers(units, s, k, stop) && taken <= Goal(units, s, k)
    requires lo <= written + |Encode(Slice(s.mask, taken, Goal(units, s, k)))|
    ensures Ascend(units[k..stop], SpanSpots(units, s, k, stop, taken, written), lo,
                   written + |SpanOut(units, s, k, stop, taken)|)
    decreases stop - k
  {
    hide *;
    CoversParts(units, s, k, stop);
    CoversNext(units, s, k, stop);
    var u, goal := units[k], Goal(units, s, k);
    var part := |Encode(Slice(s.mask, taken, goal))|;
    var at := written + part;
    var taken', written' := if u.control then goal else taken, if u.control then at + |u.raw| else written;
    var lo' := if u.control then at + |u.raw| else at;
    var hi := written' + |SpanOut(units, s, k + 1, stop, taken')|;
    if k + 1 < stop {
      if !u.control { PartGrows(s.mask, taken, goal, Goal(units, s, k + 1)); }
      CoversParts(units, s, k + 1, stop);
      CoversNext(units, s, k + 1, stop);
      SpanAscend(units, s, k + 1, stop, taken', written', lo');
    } else {
      SpanEnd(units, s, stop, taken', written');
      assert units[stop..stop] == [];
      PartGrows(s.mask, taken, goal, |s.mask|);
      AscendNone(lo', hi);
    }
    AscendStep(units, s, k, stop, taken, written, lo, lo');
  }

  /** One unit of a span in front of the others. */
  lemma {:induction false} AscendStep(units: seq<Unit>, s: Span, k: nat, stop: nat, taken: nat, written: nat, lo: nat, lo': nat)
    requires k < stop <= |units| && s.start < s.end
    requires var at := written + |Encode(Slice(s.mask, taken, Goal(units, s, k)))|;
             && lo <= at && lo' == (if units[k].control then at + |units[k].raw| else at)
             && var taken', written' := if units[k].control then Goal(units, s, k) else taken,
                                        if units[k].control then lo' else written;
             Ascend(units[k + 1..stop], SpanSpots(units, s, k + 1, stop, taken', written'), lo',
                    written' + |SpanOut(units, s, k + 1, stop, taken')|)
    ensures Ascend(units[k..stop], SpanSpots(units, s, k, stop, taken, written), lo,
                   written + |SpanOut(units, s, k, stop, taken)|)
  {
    hide *;
    var u, at := units[k], written + |Encode(Slice(s.mask, taken, Goal(units, s, k)))|;
    SpotsStep(units, s, k, stop, taken, written);
    SpanOutStep(units, s, k, stop, taken);
    assert units[k..stop] == [u] + units[k + 1..stop];
    var hi := written + |SpanOut(units, s, k, stop, taken)|;
    if u.control {
      AscendOne(u, Kept(at), units[k + 1..stop], SpanSpots(units, s, k + 1, stop, Goal(units, s, k), lo'), lo, lo', hi);
    } else {
      AscendOne(u, Removed(at), units[k + 1..stop], SpanSpots(units, s, k + 1, stop, taken, written), lo, lo', hi);
    }
  }

  lemma {:induction false} AscendNone(lo: nat, hi: nat)
    requires lo <= hi
    ensures Ascend([], [], lo, hi)
  {
  }

  lemma {:induction false} AscendOne(u: Unit, spot: Spot, units: seq<Unit>, spots: seq<Spot>, lo: nat, mid: nat, hi: nat)
    requires lo <= spot.at && mid == spot.at + (if spot.Kept? then |u.raw| else 0) && Ascend(units, spots, mid, hi)
    ensures Ascend([u] + units, [spot] + spots, lo, hi)
  {
    assert ([u] + units)[1..] == units && ([spot] + spots)[1..] == spots;
  }

  lemma {:induction false} SpotsStep(units: seq<Unit>, s: Span, k: nat, stop: nat, taken: nat, written: nat)
    requires k < stop <= |units| && s.start < s.end
    ensures var at := written + |Encode(Slice(s.mask, taken, Goal(units, s, k)))|;
            SpanSpots(units, s, k, stop, taken, written)
              == if units[k].control then
                   [Kept(at)] + SpanSpots(units, s, k + 1, stop, Goal(units, s, k), at + |units[k].raw|)
                 else [Removed(at)] + SpanSpots(units, s, k + 1, stop, taken, written)
  {
    hide Goal, Encode, Slice;
  }

  /** The spots of the whole paragraph come in order and stay within the new text. */
  lemma {:induction false} SpotsAscend(units: seq<Unit>, owner: seq<nat>, spans: seq<Span>, cursor: nat, written: nat)
    requires AllFormed(units) && Fitting(units, owner, spans, cursor)
    ensures cursor <= |units|
    ensures Ascend(units[cursor..], Spots(units, owner, spans, cursor, written), written,
                   written + |Output(units, owner, spans, cursor)|)
    decreases |spans|
  {
    hide *;
    FittingParts(units, owner, spans, cursor);
    if spans == [] {
      LastGap(units, owner, cursor, written);
      GapAscend(units[cursor..], written);
    } else {
      var first, last := owner[spans[0].start], owner[spans[0].end - 1];
      var s := Safe(spans[0]);
      FirstCovers(units, owner, spans, cursor);
      CoversParts(units, s, first, last + 1);
      var a := written + |Raw(units[cursor..first])|;
      var b := a + |SpanOut(units, s, first, last + 1, 0)|;
      var hi := b + |Output(units, owner, spans[1..], last + 1)|;
      GapAscend(units[cursor..first], written);
      SpanAscend(units, s, first, last + 1, 0, a, a);
      SpotsAscend(units, owner, spans[1..], last + 1, b);
      var p, q := GapSpots(units[cursor..first], written), SpanSpots(units, s, first, last + 1, 0, a);
      AscendJoin(units[cursor..first], p, units[first..last + 1], q, written, a, b);
      AscendJoin(units[cursor..first] + units[first..last + 1], p + q, units[last + 1..],
                 Spots(units, owner, spans[1..], last + 1, b), written, b, hi);
      assert units[cursor..] == units[cursor..first] + units[first..last + 1] + units[last + 1..];
      OutputParts(units, owner, spans, cursor, written);
    }
  }

  // ---------------------------------------------------------------- positions

  /** `position` of the `old`-th code unit. Behind the old end it counts on from the new end. */
  function Position(units: seq<Unit>, spots: seq<Spot>, was: nat, total: nat): nat
    requires |units| == |spots|
  {
    if units == [] then total + was
    else if was < |units[0].raw| then
      (match spots[0] case Kept(at) => at + was case Removed(at) => at)
    else Position(units[1..], spots[1..], was - |units[0].raw|, total)
  }

  /** The code unit at this old position is still there. */
  ghost predicate Survives(units: seq<Unit>, spots: seq<Spot>, was: nat)
    requires |units| == |spots|
  {
    units != [] && if was < |units[0].raw| then spots[0].Kept? else Survives(units[1..], spots[1..], was - |units[0].raw|)
  }

  lemma {:induction false} PositionAtLeast(units: seq<Unit>, spots: seq<Spot>, was: nat, lo: nat, total: nat)
    requires Ascend(units, spots, lo, total)
    ensures lo <= Position(units, spots, was, total)
  {
    if units != [] && was >= |units[0].raw| {
      PositionAtLeast(units[1..], spots[1..], was - |units[0].raw|, Reach(units[0], spots[0]), total);
    }
  }

  /** Positions never change their order, and nothing joins a code unit that survived. */
  lemma {:induction false} PositionMonotone(units: seq<Unit>, spots: seq<Spot>, a: nat, b: nat, lo: nat, total: nat)
    requires Ascend(units, spots, lo, total) && a <= b
    ensures Position(units, spots, a, total) <= Position(units, spots, b, total)
    ensures a < b && Survives(units, spots, a) ==> Position(units, spots, a, total) < Position(units, spots, b, total)
  {
    if units != [] {
      var n := |units[0].raw|;
      if a >= n {
        PositionMonotone(units[1..], spots[1..], a - n, b - n, Reach(units[0], spots[0]), total);
      } else if b >= n {
        PositionAtLeast(units[1..], spots[1..], b - n, Reach(units[0], spots[0]), total);
      }
    }
  }

  /** The end of the old text becomes the end of the new text, and what follows keeps its distance. */
  lemma {:induction false} PositionEnd(units: seq<Unit>, spots: seq<Spot>, beyond: nat, total: nat)
    requires |units| == |spots|
    ensures Position(units, spots, |Raw(units)| + beyond, total) == total + beyond
  {
    if units != [] { PositionEnd(units[1..], spots[1..], beyond, total); }
  }

  // ---------------------------------------------------------------- which units stay

  /** Unit `k` lies between the first and the last unit of a span. */
  predicate Within(owner: seq<nat>, s: Span, k: nat) {
    s.start < s.end <= |owner| && owner[s.start] <= k <= owner[s.end - 1]
  }

  /** A unit stays if it is a control code or lies outside all spans. */
  ghost predicate Stays(units: seq<Unit>, owner: seq<nat>, spans: seq<Span>, k: nat)
    requires k < |units|
  {
    units[k].control || forall j :: 0 <= j < |spans| ==> !Within(owner, spans[j], k)
  }

  /** The unit that holds a code unit of the paragraph. */
  function UnitAt(units: seq<Unit>, was: nat): (k: nat)
    requires was < |Raw(units)|
    ensures k < |units|
  {
    if was < |units[0].raw| then 0 else 1 + UnitAt(units[1..], was - |units[0].raw|)
  }

  lemma {:induction false} SurvivesAt(units: seq<Unit>, spots: seq<Spot>, was: nat)
    requires |units| == |spots| && was < |Raw(units)|
    ensures Survives(units, spots, was) <==> spots[UnitAt(units, was)].Kept?
  {
    if was >= |units[0].raw| { SurvivesAt(units[1..], spots[1..], was - |units[0].raw|); }
  }

  lemma {:induction false} GapKept(units: seq<Unit>, written: nat, k: nat)
    requires k < |units|
    ensures GapSpots(units, written)[k].Kept?
  {
    if k > 0 { GapKept(units[1..], written + |units[0].raw|, k - 1); }
  }

  lemma {:induction false} SpanKept(units: seq<Unit>, s: Span, k: nat, stop: nat, taken: nat, written: nat, i: nat)
    requires k <= i < stop <= |units| && s.start < s.end
    ensures SpanSpots(units, s, k, stop, taken, written)[i - k].Kept? <==> units[i].control
    decreases i - k
  {
    hide *;
    SpotsStep(units, s, k, stop, taken, written);
    if k < i {
      var at := written + |Encode(Slice(s.mask, taken, Goal(units, s, k)))|;
      if units[k].control {
        SpanKept(units, s, k + 1, stop, Goal(units, s, k), at + |units[k].raw|, i);
      } else {
        SpanKept(units, s, k + 1, stop, taken, written, i);
      }
    }
  }

  /** The spans from `cursor` on lie on units from `cursor` on. */
  lemma {:induction false} SpansBeyond(units: seq<Unit>, owner: seq<nat>, spans: seq<Span>, cursor: nat, k: nat)
    requires Fitting(units, owner, spans, cursor) && k < cursor
    ensures forall j :: 0 <= j < |spans| ==> !Within(owner, spans[j], k)
    decreases |spans|
  {
    FittingParts(units, owner, spans, cursor);
    if spans != [] {
      var rest := spans[1..];
      SpansBeyond(units, owner, rest, owner[spans[0].end - 1] + 1, k);
      assert forall j :: 1 <= j < |spans| ==> spans[j] == rest[j - 1];
    }
  }

  /** A unit is kept exactly if it is a control code or lies outside all spans. */
  lemma {:induction false} KeptExactly(units: seq<Unit>, owner: seq<nat>, spans: seq<Span>, cursor: nat, written: nat, k: nat)
    requires Fitting(units, owner, spans, cursor) && cursor <= k < |units|
    ensures Spots(units, owner, spans, cursor, written)[k - cursor].Kept? <==> Stays(units, owner, spans, k)
    decreases |spans|
  {
    hide *;
    FittingParts(units, owner, spans, cursor);
    if spans == [] {
      LastGap(units, owner, cursor, written);
      GapKept(units[cursor..|units|], written, k - cursor);
      NoneStays(units, owner, k);
    } else {
      OutputParts(units, owner, spans, cursor, written);
      var first, last := owner[spans[0].start], owner[spans[0].end - 1];
      var s := Safe(spans[0]);
      var a := written + |Raw(units[cursor..first])|;
      var b := a + |SpanOut(units, s, first, last + 1, 0)|;
      StaysCons(units, owner, spans, k);
      SpotsLength(units, s, first, last + 1, a, cursor, written);
      if k <= last { SpansBeyond(units, owner, spans[1..], last + 1, k); }
      if k < first {
        GapKept(units[cursor..first], written, k - cursor);
      } else if k <= last {
        SpanKept(units, s, first, last + 1, 0, a, k);
      } else {
        KeptExactly(units, owner, spans[1..], last + 1, b, k);
      }
    }
  }

  lemma {:induction false} SpotsLength(units: seq<Unit>, s: Span, first: nat, stop: nat, a: nat, cursor: nat, written: nat)
    requires cursor <= first <= stop <= |units| && s.start < s.end
    ensures |GapSpots(units[cursor..first], written)| == first - cursor
    ensures |SpanSpots(units, s, first, stop, 0, a)| == stop - first
  {
  }

  lemma {:induction false} NoneStays(units: seq<Unit>, owner: seq<nat>, k: nat)
    requires k < |units|
    ensures Stays(units, owner, [], k)
  {
  }

  lemma {:induction false} StaysCons(units: seq<Unit>, owner: seq<nat>, spans: seq<Span>, k: nat)
    requires k < |units| && spans != []
    ensures Stays(units, owner, spans, k) <==>
            units[k].control || (!Within(owner, spans[0], k) && Stays(units, owner, spans[1..], k))
    ensures units[k].control ==> Stays(units, owner, spans[1..], k)
    ensures Within(owner, spans[0], k) <==>
            spans[0].start < spans[0].end <= |owner| && owner[spans[0].start] <= k <= owner[spans[0].end - 1]
    ensures (forall j :: 0 <= j < |spans[1..]| ==> !Within(owner, spans[1..][j], k)) ==> Stays(units, owner, spans[1..], k)
  {
    assert forall j :: 1 <= j < |spans| ==> spans[j] == spans[1..][j - 1];
  }

  lemma {:induction false} SpotCount(units: seq<Unit>, owner: seq<nat>, spans: seq<Span>)
    requires Fitting(units, owner, spans, 0)
    ensures |Spots(units, owner, spans, 0, 0)| == |units|
  {
  }

  /** A code unit of a rewritten paragraph survives exactly if it belongs to a control code or lies outside all spans. */
  lemma {:induction false} SurvivesExactly(units: seq<Unit>, owner: seq<nat>, spans: seq<Span>, at: nat)
    requires Fitting(units, owner, spans, 0) && at < |Raw(units)|
    ensures |Spots(units, owner, spans, 0, 0)| == |units|
    ensures Survives(units, Spots(units, owner, spans, 0, 0), at) <==> Stays(units, owner, spans, UnitAt(units, at))
  {
    hide *;
    SpotCount(units, owner, spans);
    SurvivesAt(units, Spots(units, owner, spans, 0, 0), at);
    KeptExactly(units, owner, spans, 0, 0, UnitAt(units, at));
  }

  // ---------------------------------------------------------------- how `position` finds its unit

  function Starts(units: seq<Unit>, from: nat): (starts: seq<nat>)
    ensures |starts| == |units|
  {
    if units == [] then [] else [from] + Starts(units[1..], from + |units[0].raw|)
  }

  lemma {:induction false} StartsIn(units: seq<Unit>, from: nat, k: nat)
    requires k < |units| && AllFormed(units)
    ensures from <= Starts(units, from)[k]
    ensures k + 1 < |units| ==> Starts(units, from)[k + 1] == Starts(units, from)[k] + |units[k].raw|
    ensures k + 1 == |units| ==> from + |Raw(units)| == Starts(units, from)[k] + |units[k].raw|
    ensures Starts(units, from)[0] == from && |units[k].raw| > 0
  {
    assert WellFormed(units[k]);
    if k > 0 {
      assert AllFormed(units[1..]);
      StartsIn(units[1..], from + |units[0].raw|, k - 1);
    } else if |units| > 1 {
      assert Starts(units, from)[1] == Starts(units[1..], from + |units[0].raw|)[0];
    } else {
      assert units[1..] == [];
    }
  }

  /** The unit whose stretch holds `old` decides. */
  lemma {:induction false} PositionAt(units: seq<Unit>, spots: seq<Spot>, was: nat, from: nat, k: nat, total: nat)
    requires |units| == |spots| && k < |units| && AllFormed(units)
    requires Starts(units, from)[k] <= was < Starts(units, from)[k] + |units[k].raw|
    ensures from <= was && Position(units, spots, was - from, total)
              == match spots[k] case Kept(at) => at + (was - Starts(units, from)[k]) case Removed(at) => at
  {
    StartsIn(units, from, k);
    if k > 0 {
      assert AllFormed(units[1..]);
      StartsIn(units[1..], from + |units[0].raw|, k - 1);
      PositionAt(units[1..], spots[1..], was, from + |units[0].raw|, k - 1, total);
    }
  }

  /** `position`, with the binary search for the last start not behind `old`. */
  method FindPosition(ghost units: seq<Unit>, starts: seq<nat>, oldTotal: nat, spots: seq<Spot>, newTotal: nat, was: nat)
    returns (at: nat)
    requires AllFormed(units) && starts == Starts(units, 0) && oldTotal == |Raw(units)| && |spots| == |units|
    ensures at == Position(units, spots, was, newTotal)
  {
    hide Starts, Position, Raw, AllFormed;
    if was >= oldTotal {
      PositionEnd(units, spots, was - oldTotal, newTotal);
      return newTotal + (was - oldTotal);
    }
    NotEmpty(units, was);
    StartsIn(units, 0, 0);
    var lo, hi := 0, |starts|;
    while hi - lo > 1
      invariant 0 <= lo < hi <= |starts|
      invariant starts[lo] <= was && (hi < |starts| ==> was < starts[hi])
    {
      var mid := (lo + hi) / 2;
      if starts[mid] <= was { lo := mid; } else { hi := mid; }
    }
    StartsIn(units, 0, lo);
    PositionAt(units, spots, was, 0, lo, newTotal);
    at := match spots[lo] case Kept(place) => place + (was - starts[lo]) case Removed(place) => place;
  }

  lemma {:induction false} NotEmpty(units: seq<Unit>, was: nat)
    requires was < |Raw(units)|
    ensures units != []
  {
  }
}
