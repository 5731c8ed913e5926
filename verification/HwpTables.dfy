/** Character shapes and range tags of a rewritten paragraph (_hwp.py `_mask_paragraph`). */
module HwpTables {
  import opened Base
  import opened HwpUnits
  import opened HwpRewrite
  import opened HwpMoves
  import opened HwpPositions

  // ---------------------------------------------------------------- kept units lie where their spots say

  ghost predicate Located(units: seq<Unit>, spots: seq<Spot>, text: Wide) {
    |units| == |spots|
    && (units != [] ==>
          && (spots[0].Kept? ==> HasSlice(text, spots[0].at, units[0].raw))
          && Located(units[1..], spots[1..], text))
  }

  lemma {:induction false} LocatedJoin(a: seq<Unit>, p: seq<Spot>, b: seq<Unit>, q: seq<Spot>, text: Wide)
    requires Located(a, p, text) && Located(b, q, text)
    ensures Located(a + b, p + q, text)
  {
    if a == [] {
      assert a + b == b && p + q == q;
    } else {
      assert (a + b)[0] == a[0] && (a + b)[1..] == a[1..] + b && (p + q)[0] == p[0] && (p + q)[1..] == p[1..] + q;
      LocatedJoin(a[1..], p[1..], b, q, text);
    }
  }

  lemma {:induction false} GapLocated(units: seq<Unit>, written: nat, text: Wide)
    requires HasSlice(text, written, Raw(units))
    ensures Located(units, GapSpots(units, written), text)
  {
    if units != [] {
      hide HasSlice;
      InnerField(text, written, units[0].raw, Raw(units[1..]));
      GapLocated(units[1..], written + |units[0].raw|, text);
    }
  }

  lemma {:induction false} LocatedOne(u: Unit, spot: Spot, units: seq<Unit>, spots: seq<Spot>, text: Wide)
    requires Located(units, spots, text) && (spot.Kept? ==> HasSlice(text, spot.at, u.raw))
    ensures Located([u] + units, [spot] + spots, text)
  {
    assert ([u] + units)[1..] == units && ([spot] + spots)[1..] == spots;
  }

  lemma {:induction false} LocatedNone(text: Wide)
    ensures Located([], [], text)
  {
  }

  lemma {:induction false} SpanLocated(units: seq<Unit>, s: Span, k: nat, stop: nat, taken: nat, written: nat, text: Wide)
    requires k <= stop <= |units| && s.start < s.end && HasSlice(text, written, SpanOut(units, s, k, stop, taken))
    ensures Located(units[k..stop], SpanSpots(units, s, k, stop, taken, written), text)
    decreases stop - k
  {
    hide *;
    if k == stop {
      SpanEnd(units, s, stop, taken, written);
      assert units[stop..stop] == [];
      LocatedNone(text);
    } else {
      var u := units[k];
      var part := Encode(Slice(s.mask, taken, Goal(units, s, k)));
      var at := written + |part|;
      SpotsStep(units, s, k, stop, taken, written);
      SpanOutStep(units, s, k, stop, taken);
      assert units[k..stop] == [u] + units[k + 1..stop];
      if u.control {
        var rest := SpanOut(units, s, k + 1, stop, Goal(units, s, k));
        InnerField(text, written, part + u.raw, rest);
        InnerField(text, written, part, u.raw);
        SpanLocated(units, s, k + 1, stop, Goal(units, s, k), at + |u.raw|, text);
        LocatedOne(u, Kept(at), units[k + 1..stop],
                   SpanSpots(units, s, k + 1, stop, Goal(units, s, k), at + |u.raw|), text);
      } else {
        SpanLocated(units, s, k + 1, stop, taken, written, text);
        LocatedOne(u, Removed(at), units[k + 1..stop], SpanSpots(units, s, k + 1, stop, taken, written), text);
      }
    }
  }

  lemma {:induction false} SpotsLocated(units: seq<Unit>, owner: seq<nat>, spans: seq<Span>, cursor: nat, written: nat, text: Wide)
    requires Fitting(units, owner, spans, cursor) && HasSlice(text, written, Output(units, owner, spans, cursor))
    ensures cursor <= |units|
    ensures Located(units[cursor..], Spots(units, owner, spans, cursor, written), text)
    decreases |spans|
  {
    hide *;
    FittingParts(units, owner, spans, cursor);
    if spans == [] {
      LastGap(units, owner, cursor, written);
      GapLocated(units[cursor..], written, text);
    } else {
      OutputParts(units, owner, spans, cursor, written);
      var first, last := owner[spans[0].start], owner[spans[0].end - 1];
      var s := Safe(spans[0]);
      var gap, span := Raw(units[cursor..first]), SpanOut(units, s, first, last + 1, 0);
      var rest := Output(units, owner, spans[1..], last + 1);
      InnerField(text, written, gap + span, rest);
      InnerField(text, written, gap, span);
      var a := written + |gap|;
      GapLocated(units[cursor..first], written, text);
      SpanLocated(units, s, first, last + 1, 0, a, text);
      SpotsLocated(units, owner, spans[1..], last + 1, a + |span|, text);
      var p, q := GapSpots(units[cursor..first], written), SpanSpots(units, s, first, last + 1, 0, a);
      LocatedJoin(units[cursor..first], p, units[first..last + 1], q, text);
      LocatedJoin(units[cursor..first] + units[first..last + 1], p + q, units[last + 1..],
                  Spots(units, owner, spans[1..], last + 1, a + |span|), text);
      assert units[cursor..] == units[cursor..first] + units[first..last + 1] + units[last + 1..];
    }
  }

  /** A surviving code unit is found at its new position. */
  lemma {:induction false} SurvivorFound(units: seq<Unit>, spots: seq<Spot>, text: Wide, at: nat, total: nat)
    requires Located(units, spots, text) && Survives(units, spots, at)
    ensures at < |Raw(units)| && Position(units, spots, at, total) < |text|
    ensures text[Position(units, spots, at, total)] == Raw(units)[at]
  {
    var n := |units[0].raw|;
    if at < n {
      var place := spots[0].at;
      assert text[place..place + n][at] == text[place + at];
    } else {
      SurvivorFound(units[1..], spots[1..], text, at - n, total);
    }
  }

  // ---------------------------------------------------------------- character shapes

  /** From `pos` on, characters have shape `id`. */
  datatype Shape = Shape(pos: nat, id: nat)

  /** The shape at a position: that of the last entry not behind it. */
  function InForce(shapes: seq<Shape>, at: nat): Option<nat> {
    if shapes == [] then None
    else
      var n := |shapes| - 1;
      if shapes[n].pos <= at then Some(shapes[n].id) else InForce(shapes[..n], at)
  }

  /** One more entry of the new list; a later shape at the same place replaces the earlier one. */
  function Append(shapes: seq<Shape>, pos: nat, id: nat): (out: seq<Shape>)
    ensures out != []
  {
    var n := |shapes|;
    var moved := if n > 0 && pos < shapes[n - 1].pos then shapes[n - 1].pos else pos;
    if n > 0 && shapes[n - 1].pos == moved then shapes[..n - 1] + [Shape(moved, id)] else shapes + [Shape(moved, id)]
  }

  function Moved(units: seq<Unit>, spots: seq<Spot>, total: nat, shapes: seq<Shape>): seq<Shape>
    requires |units| == |spots|
  {
    if shapes == [] then []
    else
      var n := |shapes| - 1;
      Append(Moved(units, spots, total, shapes[..n]), Position(units, spots, shapes[n].pos, total), shapes[n].id)
  }

  /** The loop over the old list. */
  method MoveShapes(ghost units: seq<Unit>, starts: seq<nat>, oldTotal: nat, spots: seq<Spot>, total: nat, shapes: seq<Shape>)
    returns (out: seq<Shape>)
    requires AllFormed(units) && starts == Starts(units, 0) && oldTotal == |Raw(units)| && |spots| == |units|
    ensures out == Moved(units, spots, total, shapes)
  {
    hide Position, Starts, Raw, AllFormed;
    out := [];
    for k := 0 to |shapes|
      invariant out == Moved(units, spots, total, shapes[..k])
    {
      assert shapes[..k + 1][..k] == shapes[..k];
      var moved := FindPosition(units, starts, oldTotal, spots, total, shapes[k].pos);
      if |out| > 0 && moved < out[|out| - 1].pos { moved := out[|out| - 1].pos; }
      if |out| > 0 && out[|out| - 1].pos == moved {
        out := out[..|out| - 1] + [Shape(moved, shapes[k].id)];
      } else {
        out := out + [Shape(moved, shapes[k].id)];
      }
    }
    assert shapes[..|shapes|] == shapes;
  }

  ghost predicate Rising(shapes: seq<Shape>) {
    forall i, j :: 0 <= i < j < |shapes| ==> shapes[i].pos < shapes[j].pos
  }

  ghost predicate Sorted(shapes: seq<Shape>) {
    forall i, j :: 0 <= i < j < |shapes| ==> shapes[i].pos <= shapes[j].pos
  }

  /** Whatever the old list was, the new one rises strictly. */
  lemma {:induction false} MovedRises(units: seq<Unit>, spots: seq<Spot>, total: nat, shapes: seq<Shape>)
    requires |units| == |spots|
    ensures Rising(Moved(units, spots, total, shapes))
    ensures |Moved(units, spots, total, shapes)| <= |shapes|
  {
    hide Position, Rising, Append;
    if shapes != [] {
      var n := |shapes| - 1;
      MovedRises(units, spots, total, shapes[..n]);
      AppendRises(Moved(units, spots, total, shapes[..n]), Position(units, spots, shapes[n].pos, total), shapes[n].id);
    } else {
      NothingRises();
    }
  }

  lemma {:induction false} NothingRises()
    ensures Rising([])
  {
  }

  lemma {:induction false} AppendRises(shapes: seq<Shape>, pos: nat, id: nat)
    requires Rising(shapes)
    ensures Rising(Append(shapes, pos, id)) && |Append(shapes, pos, id)| <= |shapes| + 1
  {
    var n, out := |shapes|, Append(shapes, pos, id);
    var m := |out| - 1;
    assert forall i :: 0 <= i < m ==> out[i] == shapes[i];
    if n > 0 {
      assert forall i :: 0 <= i < n ==> shapes[i].pos <= shapes[n - 1].pos;
    }
  }

  /** The last entry of the new list comes from the last entry of a sorted old list. */
  lemma {:induction false} MovedLast(units: seq<Unit>, spots: seq<Spot>, lo: nat, total: nat, shapes: seq<Shape>)
    requires Ascend(units, spots, lo, total) && Sorted(shapes) && shapes != []
    ensures var out, n := Moved(units, spots, total, shapes), |shapes| - 1;
            out != [] && out[|out| - 1] == Shape(Position(units, spots, shapes[n].pos, total), shapes[n].id)
  {
    var n := |shapes| - 1;
    var before := shapes[..n];
    assert |units| == |spots| by { AscendLength(units, spots, lo, total); }
    hide *;
    MovedStep(units, spots, total, shapes);
    SortedFront(shapes);
    if n > 0 {
      MovedLast(units, spots, lo, total, before);
      PositionMonotone(units, spots, before[n - 1].pos, shapes[n].pos, lo, total);
    } else {
      MovedNone(units, spots, total);
    }
    AppendLast(Moved(units, spots, total, before), Position(units, spots, shapes[n].pos, total), shapes[n].id);
  }

  lemma {:induction false} MovedStep(units: seq<Unit>, spots: seq<Spot>, total: nat, shapes: seq<Shape>)
    requires |units| == |spots| && shapes != []
    ensures var n := |shapes| - 1;
            Moved(units, spots, total, shapes)
              == Append(Moved(units, spots, total, shapes[..n]), Position(units, spots, shapes[n].pos, total), shapes[n].id)
  {
  }

  lemma {:induction false} MovedNone(units: seq<Unit>, spots: seq<Spot>, total: nat)
    requires |units| == |spots|
    ensures Moved(units, spots, total, []) == []
  {
  }

  lemma {:induction false} SortedFront(shapes: seq<Shape>)
    requires Sorted(shapes) && shapes != []
    ensures var n := |shapes| - 1; Sorted(shapes[..n]) && (n > 0 ==> shapes[..n][n - 1].pos <= shapes[n].pos)
  {
  }

  lemma {:induction false} AppendLast(shapes: seq<Shape>, pos: nat, id: nat)
    requires shapes != [] ==> shapes[|shapes| - 1].pos <= pos
    ensures Append(shapes, pos, id)[|Append(shapes, pos, id)| - 1] == Shape(pos, id)
  {
  }

  lemma {:induction false} InForceLast(shapes: seq<Shape>, more: Shape, at: nat)
    ensures InForce(shapes + [more], at) == if more.pos <= at then Some(more.id) else InForce(shapes, at)
  {
    assert (shapes + [more])[..|shapes|] == shapes;
  }

  /** The two cases of appending behind the last entry. */
  lemma {:induction false} AppendIs(shapes: seq<Shape>, pos: nat, id: nat)
    requires shapes != [] ==> shapes[|shapes| - 1].pos <= pos
    ensures Append(shapes, pos, id)
         == if shapes != [] && shapes[|shapes| - 1].pos == pos then shapes[..|shapes| - 1] + [Shape(pos, id)]
            else shapes + [Shape(pos, id)]
  {
  }

  /** An entry behind the position, or replacing one behind it, changes nothing; one not behind it is in force. */
  lemma {:induction false} AppendInForce(shapes: seq<Shape>, pos: nat, id: nat, at: nat)
    requires shapes != [] ==> shapes[|shapes| - 1].pos <= pos
    ensures InForce(Append(shapes, pos, id), at) == if pos <= at then Some(id) else InForce(shapes, at)
  {
    hide Append, InForce;
    var n := |shapes|;
    AppendIs(shapes, pos, id);
    if n > 0 && shapes[n - 1].pos == pos {
      var front := shapes[..n - 1];
      InForceLast(front, Shape(pos, id), at);
      assert shapes == front + [shapes[n - 1]];
      InForceLast(front, shapes[n - 1], at);
    } else {
      InForceLast(shapes, Shape(pos, id), at);
    }
  }

  lemma {:induction false} AscendLength(units: seq<Unit>, spots: seq<Spot>, lo: nat, hi: nat)
    requires Ascend(units, spots, lo, hi)
    ensures |units| == |spots|
  {
  }

  /** Every code unit that survives keeps its shape. */
  lemma {:induction false} ShapeKept(units: seq<Unit>, spots: seq<Spot>, lo: nat, total: nat, shapes: seq<Shape>, at: nat)
    requires Ascend(units, spots, lo, total) && Sorted(shapes) && Survives(units, spots, at)
    ensures InForce(Moved(units, spots, total, shapes), Position(units, spots, at, total)) == InForce(shapes, at)
  {
    assert |units| == |spots| by { AscendLength(units, spots, lo, total); }
    hide Position, Ascend, Survives, Append;
    if shapes != [] {
      var n := |shapes| - 1;
      var before := shapes[..n];
      ShapeKept(units, spots, lo, total, before, at);
      if n > 0 {
        MovedLast(units, spots, lo, total, before);
        assert before[n - 1].pos <= shapes[n].pos;
        PositionMonotone(units, spots, before[n - 1].pos, shapes[n].pos, lo, total);
      }
      if shapes[n].pos <= at {
        PositionMonotone(units, spots, shapes[n].pos, at, lo, total);
      } else {
        PositionMonotone(units, spots, at, shapes[n].pos, lo, total);
      }
      AppendInForce(Moved(units, spots, total, before), Position(units, spots, shapes[n].pos, total), shapes[n].id,
                    Position(units, spots, at, total));
    }
  }

  // ---------------------------------------------------------------- range tags

  datatype Range = Range(start: nat, end: nat, tag: nat)

  function MovedRange(units: seq<Unit>, spots: seq<Spot>, total: nat, r: Range): Range
    requires |units| == |spots|
  {
    var start, end := Position(units, spots, r.start, total), Position(units, spots, r.end, total);
    Range(start, if end < start then start else end, r.tag)
  }

  method MoveRanges(ghost units: seq<Unit>, starts: seq<nat>, oldTotal: nat, spots: seq<Spot>, total: nat, ranges: seq<Range>)
    returns (out: seq<Range>)
    requires AllFormed(units) && starts == Starts(units, 0) && oldTotal == |Raw(units)| && |spots| == |units|
    ensures |out| == |ranges| && forall k :: 0 <= k < |out| ==> out[k] == MovedRange(units, spots, total, ranges[k])
  {
    out := [];
    for k := 0 to |ranges|
      invariant |out| == k && forall i :: 0 <= i < k ==> out[i] == MovedRange(units, spots, total, ranges[i])
    {
      var start := FindPosition(units, starts, oldTotal, spots, total, ranges[k].start);
      var end := FindPosition(units, starts, oldTotal, spots, total, ranges[k].end);
      out := out + [Range(start, if end < start then start else end, ranges[k].tag)];
    }
  }

  /** A range covers the same surviving code units as before, and never ends before it starts. */
  lemma {:induction false} RangeKept(units: seq<Unit>, spots: seq<Spot>, lo: nat, total: nat, r: Range, at: nat)
    requires Ascend(units, spots, lo, total) && Survives(units, spots, at)
    ensures var moved, p := MovedRange(units, spots, total, r), Position(units, spots, at, total);
            && moved.start <= moved.end && moved.tag == r.tag
            && (moved.start <= p < moved.end <==> r.start <= at < r.end)
  {
    hide Position, Ascend, Survives;
    if r.start <= at {
      PositionMonotone(units, spots, r.start, at, lo, total);
    } else {
      PositionMonotone(units, spots, at, r.start, lo, total);
    }
    if r.end <= at {
      PositionMonotone(units, spots, r.end, at, lo, total);
    } else {
      PositionMonotone(units, spots, at, r.end, lo, total);
    }
  }
}
