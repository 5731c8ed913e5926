/** The two loops that give masks back to pieces: in proportion (_hwp.py `_distribute`), or whole to the piece in which
    the match starts (files.py `_mask_ooxml_fragment`). */
module Pieces {
  import opened Base
  import opened Rounding
  import opened Distribute

  // ---------------------------------------------------------------- the two ways of sharing

  /** Every piece gets the part of the mask that corresponds to the part of the match it held. */
  function Proportional<T>(s: Edit<T>, x: nat): nat {
    if x <= s.start then 0
    else if x >= s.end then |s.mask|
    else Scaled(x - s.start, |s.mask|, s.end - s.start)
  }

  /** `round(offset * size / length)`. */
  function Scaled(offset: nat, size: nat, length: nat): nat
    requires length > 0
  {
    Round(offset * size, length)
  }

  /** The share is as near as whole characters can be to the part of the match before the place. */
  lemma {:induction false} ProportionalSays<T>(s: Edit<T>, x: nat, m: nat)
    requires s.start <= x <= s.end && s.start < s.end
    ensures m == Proportional(s, x) <==> Nearest((x - s.start) * |s.mask|, s.end - s.start, m)
  {
    hide Round, Nearest;
    var length, size, offset := s.end - s.start, |s.mask|, x - s.start;
    NearestIsRound(offset * size, length, m);
    RoundWithin(offset, size, length);
    assert offset == 0 ==> offset * size == 0;
  }

  lemma {:induction false} ProportionalFair<T(!new)>()
    ensures Sharing<T>(Proportional)
  {
    forall s: Edit<T> | s.start < s.end
      ensures FairFor(Proportional, s)
    {
      forall x, y | s.start <= x <= y <= s.end
        ensures Proportional(s, x) <= Proportional(s, y) <= |s.mask|
      {
        ProportionalGrows(s, x, y);
      }
    }
  }

  lemma {:induction false} ProportionalGrows<T>(s: Edit<T>, x: nat, y: nat)
    requires s.start < s.end && s.start <= x <= y <= s.end
    ensures Proportional(s, x) <= Proportional(s, y) <= |s.mask|
  {
    hide Round;
    var length, size := s.end - s.start, |s.mask|;
    RoundWithin(y - s.start, size, length);
    RoundWithin(x - s.start, size, length);
    Times(x - s.start, y - s.start, size);
    RoundMonotone((x - s.start) * size, (y - s.start) * size, length);
  }

  /** The piece that holds the first character gets the whole mask. */
  function AtStart<T>(s: Edit<T>, x: nat): nat {
    if x <= s.start then 0 else |s.mask|
  }

  /** Before the first character of the match lies nothing of the mask, behind it all of it. */
  lemma {:induction false} AtStartSays<T>(s: Edit<T>, x: nat)
    ensures x <= s.start ==> Slice(s.mask, 0, AtStart(s, x)) == []
    ensures s.start < x ==> Slice(s.mask, 0, AtStart(s, x)) == s.mask
  {
  }

  lemma {:induction false} AtStartFair<T(!new)>()
    ensures Sharing<T>(AtStart)
  {
  }

  // ---------------------------------------------------------------- one piece

  /** Spans that end before a piece have nothing to do with it. */
  lemma {:induction false} SkipDone<T(!new)>(text: seq<T>, spans: seq<Edit<T>>, share: Share<T>, first: nat, a: nat, b: nat)
    requires a <= b <= |text| && DisjointSpans(spans, |text|) && first <= |spans|
    requires forall j :: 0 <= j < first ==> spans[j].end <= a
    ensures DisjointSpans(spans[first..], |text|)
    ensures RangeOut(text, spans, share, a, b) == RangeOut(text, spans[first..], share, a, b)
  {
    hide RangeOut;
    if first == 0 {
      assert spans[0..] == spans;
    } else {
      RangeStep(text, spans, share, a, b);
      assert spans[1..][first - 1..] == spans[first..];
      SkipDone(text, spans[1..], share, first - 1, a, b);
    }
  }

  ghost predicate Reaches<T>(spans: seq<Edit<T>>, k: nat, start: nat, end: nat)
    requires k < |spans|
  {
    spans[k].start < end && start < spans[k].end
  }

  /** Some span shares a character with the piece, or runs across it when it is empty. */
  ghost predicate Touched<T>(spans: seq<Edit<T>>, start: nat, end: nat) {
    exists k :: 0 <= k < |spans| && Reaches(spans, k, start, end)
  }

  lemma {:induction false} TouchedFirst<T>(spans: seq<Edit<T>>, n: nat, first: nat, start: nat, end: nat)
    requires DisjointSpans(spans, n) && first <= |spans| && start <= end
    requires forall j :: 0 <= j < first ==> spans[j].end <= start
    requires first < |spans| ==> start < spans[first].end
    ensures Touched(spans, start, end) <==> first < |spans| && spans[first].start < end
  {
    if first < |spans| && spans[first].start < end { assert Reaches(spans, first, start, end); }
  }

  /** What is left of a piece: spans from `k` on, text from `cursor` on; nothing once a span runs past the end. */
  ghost function Remaining<T(!new)>(text: seq<T>, spans: seq<Edit<T>>, share: Share<T>, k: nat, cursor: nat, end: nat): seq<T>
    requires cursor <= end <= |text| && DisjointSpans(spans, |text|) && k <= |spans|
  {
    RestDisjoint(spans, |text|, k);
    RangeOut(text, spans[k..], share, cursor, end)
  }

  lemma {:induction false} RestDisjoint<T>(spans: seq<Edit<T>>, n: nat, k: nat)
    requires DisjointSpans(spans, n) && k <= |spans|
    ensures DisjointSpans(spans[k..], n)
  {
  }

  /** One overlapping span: the text before it, its part of the mask, then the rest. */
  lemma {:induction false} OneSpan<T(!new)>(text: seq<T>, spans: seq<Edit<T>>, share: Share<T>, k: nat, cursor: nat, end: nat)
    requires cursor <= end <= |text| && DisjointSpans(spans, |text|) && k < |spans| && Sharing(share)
    requires cursor < spans[k].end && spans[k].start < end
    ensures var s := spans[k];
            Remaining(text, spans, share, k, cursor, end)
              == text[cursor..Max(cursor, s.start)]
                 + Slice(s.mask, share(s, Max(cursor, s.start)), share(s, Min(end, s.end)))
                 + if s.end > end then [] else Remaining(text, spans, share, k + 1, s.end, end)
  {
    hide RangeOut, Sharing;
    RestDisjoint(spans, |text|, k);
    RestDisjoint(spans, |text|, k + 1);
    RangeStep(text, spans[k..], share, cursor, end);
    assert spans[k..][0] == spans[k] && spans[k..][1..] == spans[k + 1..];
    if spans[k].end == end { RangeEmpty(text, spans[k + 1..], share, end); }
  }

  lemma {:induction false} NoMoreSpans<T(!new)>(text: seq<T>, spans: seq<Edit<T>>, share: Share<T>, k: nat, cursor: nat, end: nat)
    requires cursor <= end <= |text| && DisjointSpans(spans, |text|) && k <= |spans| && Sharing(share)
    requires k < |spans| ==> cursor <= spans[k].start && end <= spans[k].start
    ensures Remaining(text, spans, share, k, cursor, end) == text[cursor..end]
  {
    RestDisjoint(spans, |text|, k);
    if k < |spans| {
      RangeStep(text, spans[k..], share, cursor, end);
    }
  }

  /** The inner loop of `_distribute`. */
  method PieceInProportion<T(!new)>(ghost text: seq<T>, piece: seq<T>, spans: seq<Edit<T>>, first: nat, start: nat, end: nat)
    returns (touched: bool, value: seq<T>)
    requires start <= end <= |text| && piece == text[start..end] && DisjointSpans(spans, |text|) && first <= |spans|
    requires first < |spans| ==> start < spans[first].end
    ensures value == Remaining(text, spans, Proportional, first, start, end)
    ensures touched <==> first < |spans| && spans[first].start < end
  {
    hide *;
    ProportionalFair<T>();
    var out: seq<T> := [];
    var cursor: nat, k: nat := start, first;
    var past := false;
    assert [] + Remaining(text, spans, Proportional, first, start, end) == Remaining(text, spans, Proportional, first, start, end);
    while k < |spans| && spans[k].start < end
      invariant first <= k <= |spans| && start <= cursor <= end
      invariant k < |spans| ==> cursor < spans[k].end && (k > first ==> cursor <= spans[k].start)
      invariant if k > first then spans[first].start < end else cursor == start
      invariant Remaining(text, spans, Proportional, first, start, end)
             == out + Remaining(text, spans, Proportional, k, cursor, end)
      decreases |spans| - k
    {
      var s := spans[k];
      SpanOrder(spans, |text|, k);
      StepInProportion(text, piece, spans, start, end, k, cursor);
      var lo, hi := if s.start < start then start else s.start, if s.end < end then s.end else end;
      var before: seq<T> := [];
      if cursor < lo { before := piece[cursor - start..lo - start]; }
      var length, size := s.end - s.start, |s.mask|;
      var a: nat := if lo == s.start then 0 else Scaled(lo - s.start, size, length);
      var b: nat := if hi == s.end then size else Scaled(hi - s.start, size, length);
      Assoc4(out, before, Slice(s.mask, a, b),
             if s.end > end then [] else Remaining(text, spans, Proportional, k + 1, s.end, end));
      out := out + before + Slice(s.mask, a, b);
      cursor := hi;
      if s.end > end {
        past := true;
        break;
      }
      k := k + 1;
    }
    touched := k > first || (k < |spans| && spans[k].start < end);
    assert out + [] == out;
    if !past {
      NoMoreSpans(text, spans, Proportional, k, cursor, end);
      PieceSlice(text, piece, start, end, cursor, end);
      if cursor < end {
        assert piece[cursor - start..] == piece[cursor - start..end - start];
        out := out + piece[cursor - start..];
      } else {
        assert text[cursor..end] == [];
      }
    }
    value := out;
  }

  lemma {:induction false} SpanOrder<T>(spans: seq<Edit<T>>, n: nat, k: nat)
    requires DisjointSpans(spans, n) && k < |spans|
    ensures spans[k].start < spans[k].end <= n
    ensures k + 1 < |spans| ==> spans[k].end <= spans[k + 1].start < spans[k + 1].end
  {
  }

  /** One round of the loop in terms of what remains. */
  lemma {:induction false} StepInProportion<T(!new)>(text: seq<T>, piece: seq<T>, spans: seq<Edit<T>>, start: nat, end: nat, k: nat, cursor: nat)
    requires start <= cursor <= end <= |text| && piece == text[start..end] && DisjointSpans(spans, |text|) && k < |spans|
    requires cursor < spans[k].end && spans[k].start < end && (cursor == start || cursor <= spans[k].start)
    ensures var s := spans[k];
            var lo, hi := if s.start < start then start else s.start, if s.end < end then s.end else end;
            && s.start < s.end && s.start <= lo <= end && s.start <= hi && cursor <= lo && lo <= hi
            && var a: nat := if lo == s.start then 0 else Scaled(lo - s.start, |s.mask|, s.end - s.start);
            var b: nat := if hi == s.end then |s.mask| else Scaled(hi - s.start, |s.mask|, s.end - s.start);
            var before: seq<T> := if cursor < lo then piece[cursor - start..lo - start] else [];
            var more := if s.end > end then [] else Remaining(text, spans, Proportional, k + 1, s.end, end);
            Remaining(text, spans, Proportional, k, cursor, end) == before + Slice(s.mask, a, b) + more
  {
    hide Remaining, RangeOut, Sharing, Proportional, Slice, DisjointSpans, Scaled;
    var s := spans[k];
    SpanOrder(spans, |text|, k);
    var lo, hi := if s.start < start then start else s.start, if s.end < end then s.end else end;
    ProportionalFair<T>();
    OneSpan(text, spans, Proportional, k, cursor, end);
    PieceSlice(text, piece, start, end, cursor, lo);
    ShareIs(s, lo, hi);
  }

  lemma {:induction false} PieceSlice<T>(text: seq<T>, piece: seq<T>, start: nat, end: nat, a: nat, b: nat)
    requires start <= a <= b <= end <= |text| && piece == text[start..end]
    ensures piece[a - start..b - start] == text[a..b]
  {
    var lo, hi := a - start, b - start;
    assert forall i :: lo <= i < hi ==> text[start..end][i] == text[start + i];
    assert text[start..end][lo..hi] == text[a..b];
  }

  lemma {:induction false} ShareIs<T>(s: Edit<T>, lo: nat, hi: nat)
    requires s.start <= lo <= hi <= s.end && s.start < s.end && lo < s.end && s.start < hi
    ensures Proportional(s, lo) == if lo == s.start then 0 else Scaled(lo - s.start, |s.mask|, s.end - s.start)
    ensures Proportional(s, hi) == if hi == s.end then |s.mask| else Scaled(hi - s.start, |s.mask|, s.end - s.start)
  {
  }

  /** The inner loop of `_mask_ooxml_fragment`. */
  method PieceAtStart<T(!new)>(ghost text: seq<T>, piece: seq<T>, spans: seq<Edit<T>>, first: nat, start: nat, end: nat)
    returns (touched: bool, value: seq<T>)
    requires start <= end <= |text| && piece == text[start..end] && DisjointSpans(spans, |text|) && first <= |spans|
    requires first < |spans| ==> start < spans[first].end
    ensures value == Remaining(text, spans, AtStart, first, start, end)
    ensures touched <==> first < |spans| && spans[first].start < end
  {
    hide *;
    AtStartFair<T>();
    var out: seq<T> := [];
    var cursor: nat, k: nat := start, first;
    var past := false;
    touched := false;
    assert [] + Remaining(text, spans, AtStart, first, start, end) == Remaining(text, spans, AtStart, first, start, end);
    while k < |spans| && spans[k].start < end
      invariant first <= k <= |spans| && start <= cursor <= end
      invariant k < |spans| ==> cursor < spans[k].end && (k > first ==> cursor <= spans[k].start)
      invariant if k > first then spans[first].start < end else cursor == start
      invariant touched <==> k > first
      invariant Remaining(text, spans, AtStart, first, start, end) == out + Remaining(text, spans, AtStart, k, cursor, end)
      decreases |spans| - k
    {
      var s := spans[k];
      touched := true;
      SpanOrder(spans, |text|, k);
      StepAtStart(text, piece, spans, start, end, k, cursor);
      var before: seq<T>, mask: seq<T> := [], [];
      if cursor < s.start { before := piece[cursor - start..s.start - start]; }
      if s.start >= start { mask := s.mask; }
      Assoc4(out, before, mask, if s.end > end then [] else Remaining(text, spans, AtStart, k + 1, s.end, end));
      out := out + before + mask;
      var hi := if s.end < end then s.end else end;
      if cursor < hi { cursor := hi; }
      if s.end > end {
        past := true;
        break;
      }
      k := k + 1;
    }
    assert out + [] == out;
    if !past {
      NoMoreSpans(text, spans, AtStart, k, cursor, end);
      PieceSlice(text, piece, start, end, cursor, end);
      if cursor < end {
        assert piece[cursor - start..] == piece[cursor - start..end - start];
        out := out + piece[cursor - start..];
      } else {
        assert text[cursor..end] == [];
      }
    }
    value := out;
  }

  lemma {:induction false} StepAtStart<T(!new)>(text: seq<T>, piece: seq<T>, spans: seq<Edit<T>>, start: nat, end: nat, k: nat, cursor: nat)
    requires start <= cursor <= end <= |text| && piece == text[start..end] && DisjointSpans(spans, |text|) && k < |spans|
    requires cursor < spans[k].end && spans[k].start < end && (cursor == start || (start < cursor && cursor <= spans[k].start))
    ensures var s := spans[k];
            && s.start < s.end && (cursor < s.start ==> s.start <= end)
            && var before: seq<T> := if cursor < s.start then piece[cursor - start..s.start - start] else [];
            var mask: seq<T> := if s.start >= start then s.mask else [];
            var more := if s.end > end then [] else Remaining(text, spans, AtStart, k + 1, s.end, end);
            Remaining(text, spans, AtStart, k, cursor, end) == before + mask + more
  {
    hide Remaining, RangeOut, Sharing, AtStart, Slice, DisjointSpans;
    var s := spans[k];
    SpanOrder(spans, |text|, k);
    AtStartFair<T>();
    OneSpan(text, spans, AtStart, k, cursor, end);
    PieceSlice(text, piece, start, end, cursor, Max(cursor, s.start));
    WholeOrNothing(s, cursor, end);
  }

  lemma {:induction false} WholeOrNothing<T>(s: Edit<T>, cursor: nat, end: nat)
    requires cursor < s.end && s.start < end && s.start < s.end && cursor <= end
    ensures Slice(s.mask, AtStart(s, Max(cursor, s.start)), AtStart(s, Min(end, s.end)))
              == if cursor <= s.start then s.mask else []
  {
  }

  // ---------------------------------------------------------------- all pieces

  /** What both loops promise: a new value exactly for the pieces a span reaches, and the right one. */
  ghost predicate Shared<T(!new)>(pieces: seq<seq<T>>, spans: seq<Edit<T>>, share: Share<T>, replaced: map<nat, seq<T>>, n: nat)
    requires DisjointSpans(spans, |Join(pieces)|) && n <= |pieces|
  {
    && (forall i :: i in replaced ==> i < n)
    && (forall i: nat :: i < n ==>
          && (i in replaced <==> Touched(spans, Start(pieces, i), Start(pieces, i + 1)))
          && Given(pieces, spans, share, i, if i in replaced then replaced[i] else pieces[i]))
  }

  lemma {:induction false} PieceDone<T(!new)>(pieces: seq<seq<T>>, spans: seq<Edit<T>>, share: Share<T>, i: nat, first: nat,
                           touched: bool, value: seq<T>)
    requires DisjointSpans(spans, |Join(pieces)|) && i < |pieces| && first <= |spans| && Sharing(share)
    requires forall j :: 0 <= j < first ==> spans[j].end <= Start(pieces, i)
    requires first < |spans| ==> Start(pieces, i) < spans[first].end
    requires Start(pieces, i) <= Start(pieces, i + 1) <= |Join(pieces)|
    requires value == Remaining(Join(pieces), spans, share, first, Start(pieces, i), Start(pieces, i + 1))
    requires touched <==> first < |spans| && spans[first].start < Start(pieces, i + 1)
    ensures touched <==> Touched(spans, Start(pieces, i), Start(pieces, i + 1))
    ensures Given(pieces, spans, share, i, if touched then value else pieces[i])
  {
    hide RangeOut, Sharing, Join, Touched;
    var start, end := Start(pieces, i), Start(pieces, i + 1);
    PieceAt(pieces, i);
    TouchedFirst(spans, |Join(pieces)|, first, start, end);
    SkipDone(Join(pieces), spans, share, first, start, end);
    if !touched { NoMoreSpans(Join(pieces), spans, share, first, start, end); }
  }

  /** The pieces so far, before and after one more. */
  lemma {:induction false} SharedGrow<T(!new)>(pieces: seq<seq<T>>, spans: seq<Edit<T>>, share: Share<T>, replaced: map<nat, seq<T>>, i: nat,
                            touched: bool, value: seq<T>, replaced': map<nat, seq<T>>)
    requires DisjointSpans(spans, |Join(pieces)|) && i < |pieces| && Shared(pieces, spans, share, replaced, i)
    requires touched <==> Touched(spans, Start(pieces, i), Start(pieces, i + 1))
    requires Given(pieces, spans, share, i, if touched then value else pieces[i])
    requires replaced' == if touched then replaced[i := value] else replaced
    ensures Shared(pieces, spans, share, replaced', i + 1)
  {
    hide Given, Touched, Join, Start;
  }

  lemma {:induction false} SharedNone<T(!new)>(pieces: seq<seq<T>>, spans: seq<Edit<T>>, share: Share<T>)
    requires DisjointSpans(spans, |Join(pieces)|)
    ensures Shared(pieces, spans, share, map[], 0)
  {
  }

  lemma {:induction false} PieceText<T>(pieces: seq<seq<T>>, i: nat)
    requires i < |pieces|
    ensures var start, end := Start(pieces, i), Start(pieces, i + 1);
            start <= end <= |Join(pieces)| && end == start + |pieces[i]| && Join(pieces)[start..end] == pieces[i]
    ensures Start(pieces, 0) == 0
  {
    PieceAt(pieces, i);
  }

  lemma {:induction false} StartZero<T>(pieces: seq<seq<T>>)
    ensures Start(pieces, 0) == 0
  {
  }

  /** Advance to the first span that does not end before the piece. */
  method SkipSpans<T>(spans: seq<Edit<T>>, from: nat, start: nat, ghost before: nat) returns (first: nat)
    requires from <= |spans| && before <= start && forall j :: 0 <= j < from ==> spans[j].end <= before
    ensures first <= |spans| && forall j :: 0 <= j < first ==> spans[j].end <= start
    ensures first < |spans| ==> start < spans[first].end
  {
    first := from;
    while first < |spans| && spans[first].end <= start
      invariant first <= |spans| && forall j :: 0 <= j < first ==> spans[j].end <= start
    {
      first := first + 1;
    }
  }

  /** `_distribute`. */
  method DistributeInProportion<T(!new)>(pieces: seq<seq<T>>, spans: seq<Edit<T>>) returns (replaced: map<nat, seq<T>>)
    requires DisjointSpans(spans, |Join(pieces)|)
    ensures Shared(pieces, spans, Proportional, replaced, |pieces|)
  {
    hide *;
    replaced := map[];
    var offset: nat, first: nat := 0, 0;
    ghost var text := Join(pieces);
    ghost var before: nat := 0;
    ProportionalFair<T>();
    SharedNone(pieces, spans, Proportional);
    StartZero(pieces);
    for i := 0 to |pieces|
      invariant Shared(pieces, spans, Proportional, replaced, i) && offset == Start(pieces, i)
      invariant first <= |spans| && before <= offset && forall j :: 0 <= j < first ==> spans[j].end <= before
    {
      var start: nat, end: nat := offset, offset + |pieces[i]|;
      PieceText(pieces, i);
      first := SkipSpans(spans, first, start, before);
      before := start;
      var touched, value := PieceInProportion(text, pieces[i], spans, first, start, end);
      PieceDone(pieces, spans, Proportional, i, first, touched, value);
      ghost var was := replaced;
      if touched { replaced := replaced[i := value]; }
      SharedGrow(pieces, spans, Proportional, was, i, touched, value, replaced);
      offset := end;
    }
  }

  /** The group loop of `_mask_ooxml_fragment`. */
  method DistributeAtStart<T(!new)>(pieces: seq<seq<T>>, spans: seq<Edit<T>>) returns (replaced: map<nat, seq<T>>)
    requires DisjointSpans(spans, |Join(pieces)|)
    ensures Shared(pieces, spans, AtStart, replaced, |pieces|)
  {
    hide *;
    replaced := map[];
    var offset: nat, first: nat := 0, 0;
    ghost var text := Join(pieces);
    ghost var before: nat := 0;
    AtStartFair<T>();
    SharedNone(pieces, spans, AtStart);
    StartZero(pieces);
    for i := 0 to |pieces|
      invariant Shared(pieces, spans, AtStart, replaced, i) && offset == Start(pieces, i)
      invariant first <= |spans| && before <= offset && forall j :: 0 <= j < first ==> spans[j].end <= before
    {
      var start: nat, end: nat := offset, offset + |pieces[i]|;
      PieceText(pieces, i);
      first := SkipSpans(spans, first, start, before);
      before := start;
      var touched, value := PieceAtStart(text, pieces[i], spans, first, start, end);
      PieceDone(pieces, spans, AtStart, i, first, touched, value);
      ghost var was := replaced;
      if touched { replaced := replaced[i := value]; }
      SharedGrow(pieces, spans, AtStart, was, i, touched, value, replaced);
      offset := end;
    }
  }

  ghost function Final<T>(pieces: seq<seq<T>>, replaced: map<nat, seq<T>>): (out: seq<seq<T>>)
    ensures |out| == |pieces|
  {
    seq(|pieces|, i requires 0 <= i < |pieces| => if i in replaced then replaced[i] else pieces[i])
  }

  /** Pieces that no span reaches stay as they are, and all pieces together are the spliced text. */
  lemma {:induction false} SharedIsSpliced<T(!new)>(pieces: seq<seq<T>>, spans: seq<Edit<T>>, share: Share<T>, replaced: map<nat, seq<T>>)
    requires DisjointSpans(spans, |Join(pieces)|) && Sharing(share) && Shared(pieces, spans, share, replaced, |pieces|)
    ensures Ordered(spans, 0, |Join(pieces)|) && Join(Final(pieces, replaced)) == Replace(Join(pieces), spans, 0)
    ensures forall i: nat :: i < |pieces| && !Touched(spans, Start(pieces, i), Start(pieces, i + 1)) ==>
              Final(pieces, replaced)[i] == pieces[i]
  {
    hide Given, Touched, Join, Start, Sharing, Ordered;
    AllGiven(pieces, spans, share, Final(pieces, replaced));
  }
}
