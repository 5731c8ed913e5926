/** Giving the masks of a joined text back to its pieces (_hwp.py `_distribute`; files.py `_mask_ooxml_fragment`). */
module Distribute {
  import opened Base

  // ---------------------------------------------------------------- which part of a mask goes where

  /** How much of the mask of a span lies before a place inside the span. */
  type Share<!T> = (Edit<T>, nat) -> nat

  /** Nothing at the start, everything at the end, and never less further on. */
  ghost predicate Sharing<T(!new)>(share: Share<T>) {
    forall s: Edit<T> :: s.start < s.end ==> FairFor(share, s)
  }

  ghost predicate FairFor<T>(share: Share<T>, s: Edit<T>) {
    && share(s, s.start) == 0 && share(s, s.end) == |s.mask|
    && forall x, y :: s.start <= x <= y <= s.end ==> share(s, x) <= share(s, y) <= |s.mask|
  }

  /** What the stretch `a..b` of the text becomes. */
  ghost function RangeOut<T(!new)>(text: seq<T>, spans: seq<Edit<T>>, share: Share<T>, a: nat, b: nat): seq<T>
    requires a <= b <= |text| && DisjointSpans(spans, |text|)
    decreases |spans|
  {
    if spans == [] then text[a..b]
    else
      var s, rest := spans[0], spans[1..];
      Tail(spans, |text|);
      if s.end <= a then RangeOut(text, rest, share, a, b)
      else if b <= s.start then text[a..b]
      else
        text[a..Max(a, s.start)] + Slice(s.mask, share(s, Max(a, s.start)), share(s, Min(b, s.end)))
        + if b <= s.end then [] else RangeOut(text, rest, share, s.end, b)
  }

  lemma {:induction false} Tail<T>(spans: seq<Edit<T>>, n: nat)
    requires DisjointSpans(spans, n) && spans != []
    ensures spans[0].start < spans[0].end <= n && DisjointSpans(spans[1..], n)
    ensures forall k :: 0 <= k < |spans[1..]| ==> spans[0].end <= spans[1..][k].start
  {
  }

  lemma {:induction false} RangeEmpty<T(!new)>(text: seq<T>, spans: seq<Edit<T>>, share: Share<T>, a: nat)
    requires a <= |text| && DisjointSpans(spans, |text|) && Sharing(share)
    ensures RangeOut(text, spans, share, a, a) == []
    decreases |spans|
  {
    if spans != [] {
      Tail(spans, |text|);
      assert FairFor(share, spans[0]);
      RangeEmpty(text, spans[1..], share, a);
    }
  }

  lemma {:induction false} SliceJoin<T>(mask: seq<T>, a: nat, b: nat, c: nat)
    requires a <= b <= c <= |mask|
    ensures Slice(mask, a, b) + Slice(mask, b, c) == Slice(mask, a, c)
  {
    JoinSlices(mask, a, b, c);
  }

  /** What a stretch becomes does not depend on where it is cut into pieces. */
  lemma {:induction false} RangeJoin<T(!new)>(text: seq<T>, spans: seq<Edit<T>>, share: Share<T>, a: nat, b: nat, c: nat)
    requires a <= b <= c <= |text| && DisjointSpans(spans, |text|) && Sharing(share)
    ensures RangeOut(text, spans, share, a, b) + RangeOut(text, spans, share, b, c) == RangeOut(text, spans, share, a, c)
    decreases |spans|
  {
    hide *;
    if spans == [] {
      RangeNone(text, share, a, b);
      RangeNone(text, share, b, c);
      RangeNone(text, share, a, c);
      JoinSlices(text, a, b, c);
    } else {
      var s, rest := spans[0], spans[1..];
      Tail(spans, |text|);
      RangeStep(text, spans, share, a, b);
      RangeStep(text, spans, share, b, c);
      RangeStep(text, spans, share, a, c);
      if s.end <= a {
        RangeJoin(text, rest, share, a, b, c);
      } else if c <= s.start {
        JoinSlices(text, a, b, c);
      } else if b <= s.start {
        BeforeSpan(text, spans, share, a, b, c);
      } else if b < s.end {
        InsideSpan(text, spans, share, a, b, c);
      } else {
        RangeJoin(text, rest, share, s.end, b, c);
        RangeEmpty(text, rest, share, s.end);
        AfterSpan(text, spans, share, a, b, c);
      }
    }
  }

  lemma {:induction false} RangeNone<T(!new)>(text: seq<T>, share: Share<T>, a: nat, b: nat)
    requires a <= b <= |text|
    ensures DisjointSpans<T>([], |text|) && RangeOut(text, [], share, a, b) == text[a..b]
  {
  }

  /** What the first span overlapped by `a..b` contributes, and the rest. */
  ghost function Overlap<T(!new)>(text: seq<T>, spans: seq<Edit<T>>, share: Share<T>, a: nat, b: nat): seq<T>
    requires a <= b <= |text| && spans != [] && DisjointSpans(spans, |text|) && a < spans[0].end && spans[0].start < b
  {
    var s := spans[0];
    Tail(spans, |text|);
    text[a..Max(a, s.start)] + Slice(s.mask, share(s, Max(a, s.start)), share(s, Min(b, s.end)))
    + if b <= s.end then [] else RangeOut(text, spans[1..], share, s.end, b)
  }

  lemma {:induction false} RangeStep<T(!new)>(text: seq<T>, spans: seq<Edit<T>>, share: Share<T>, a: nat, b: nat)
    requires a <= b <= |text| && spans != [] && DisjointSpans(spans, |text|)
    ensures DisjointSpans(spans[1..], |text|)
    ensures var s := spans[0];
            RangeOut(text, spans, share, a, b)
              == if s.end <= a then RangeOut(text, spans[1..], share, a, b)
                 else if b <= s.start then text[a..b]
                 else Overlap(text, spans, share, a, b)
  {
  }

  lemma {:induction false} BeforeSpan<T(!new)>(text: seq<T>, spans: seq<Edit<T>>, share: Share<T>, a: nat, b: nat, c: nat)
    requires a <= b <= c <= |text| && spans != [] && DisjointSpans(spans, |text|)
    requires b <= spans[0].start < c && a < spans[0].end
    ensures b < spans[0].end
    ensures text[a..b] + Overlap(text, spans, share, b, c) == Overlap(text, spans, share, a, c)
  {
    hide RangeOut, Sharing;
    Tail(spans, |text|);
    var s := spans[0];
    var mask := Slice(s.mask, share(s, s.start), share(s, Min(c, s.end)));
    var more := if c <= s.end then [] else RangeOut(text, spans[1..], share, s.end, c);
    JoinSlices(text, a, b, s.start);
    Assoc4(text[a..b], text[b..s.start], mask, more);
  }

  lemma {:induction false} InsideSpan<T(!new)>(text: seq<T>, spans: seq<Edit<T>>, share: Share<T>, a: nat, b: nat, c: nat)
    requires a <= b <= c <= |text| && spans != [] && DisjointSpans(spans, |text|) && Sharing(share)
    requires spans[0].start < b < spans[0].end && a < spans[0].end && spans[0].start < c
    ensures Overlap(text, spans, share, a, b) + Overlap(text, spans, share, b, c) == Overlap(text, spans, share, a, c)
  {
    var s := spans[0];
    Tail(spans, |text|);
    assert FairFor(share, s);
    hide RangeOut, Sharing;
    var lo, hi := Max(a, s.start), Min(c, s.end);
    var more := if c <= s.end then [] else RangeOut(text, spans[1..], share, s.end, c);
    SliceJoin(s.mask, share(s, lo), share(s, b), share(s, hi));
    InsideJoin(text[a..lo], Slice(s.mask, share(s, lo), share(s, b)), Slice(s.mask, share(s, b), share(s, hi)), more);
    assert text[b..b] == [];
  }

  lemma {:induction false} InsideJoin<T>(a: seq<T>, b: seq<T>, c: seq<T>, d: seq<T>)
    ensures (a + b + []) + ([] + c + d) == a + (b + c) + d
  {
  }

  lemma {:induction false} AfterSpan<T(!new)>(text: seq<T>, spans: seq<Edit<T>>, share: Share<T>, a: nat, b: nat, c: nat)
    requires a <= b <= c <= |text| && spans != [] && DisjointSpans(spans, |text|)
    requires spans[0].end <= b && a < spans[0].end && spans[0].start < b
    requires DisjointSpans(spans[1..], |text|)
    requires RangeOut(text, spans[1..], share, spans[0].end, b) + RangeOut(text, spans[1..], share, b, c)
          == RangeOut(text, spans[1..], share, spans[0].end, c)
    requires RangeOut(text, spans[1..], share, spans[0].end, spans[0].end) == []
    ensures spans[0].start < c
    ensures Overlap(text, spans, share, a, b) + RangeOut(text, spans[1..], share, b, c) == Overlap(text, spans, share, a, c)
  {
    hide RangeOut, Sharing, DisjointSpans;
    var s := spans[0];
    var head := text[a..Max(a, s.start)] + Slice(s.mask, share(s, Max(a, s.start)), share(s, s.end));
    Assoc(head, RangeOut(text, spans[1..], share, s.end, b), RangeOut(text, spans[1..], share, b, c));
  }

  /** The whole text becomes the text with every span replaced by its mask. */
  lemma {:induction false} RangeAll<T(!new)>(text: seq<T>, spans: seq<Edit<T>>, share: Share<T>, a: nat)
    requires a <= |text| && DisjointSpans(spans, |text|) && Sharing(share)
    requires spans != [] ==> a <= spans[0].start
    ensures Ordered(spans, a, |text|) && RangeOut(text, spans, share, a, |text|) == Replace(text, spans, a)
    decreases |spans|
  {
    SpansAreOrdered(spans, a, |text|);
    if spans != [] {
      var s := spans[0];
      Tail(spans, |text|);
      assert FairFor(share, s);
      RangeAll(text, spans[1..], share, s.end);
      RangeEmpty(text, spans[1..], share, s.end);
      assert s.mask[0..|s.mask|] == s.mask;
    }
  }

  // ---------------------------------------------------------------- pieces

  /** The pieces lie one after another in their joined text. */
  lemma {:induction false} PieceAt<T>(pieces: seq<seq<T>>, i: nat)
    requires i < |pieces|
    ensures var start := |Join(pieces[..i])|;
            start + |pieces[i]| <= |Join(pieces)| && Join(pieces)[start..start + |pieces[i]|] == pieces[i]
    ensures |Join(pieces[..i + 1])| == |Join(pieces[..i])| + |pieces[i]|
  {
    JoinStep(pieces, i);
    assert pieces == pieces[..i + 1] + pieces[i + 1..];
    JoinAppend(pieces[..i + 1], pieces[i + 1..]);
  }

  ghost function Start<T>(pieces: seq<seq<T>>, i: nat): nat
    requires i <= |pieces|
  {
    |Join(pieces[..i])|
  }

  /** Piece `i` holds what its stretch of the joined text became. */
  ghost predicate Given<T(!new)>(pieces: seq<seq<T>>, spans: seq<Edit<T>>, share: Share<T>, i: nat, out: seq<T>)
    requires i < |pieces| && DisjointSpans(spans, |Join(pieces)|)
  {
    PieceAt(pieces, i);
    out == RangeOut(Join(pieces), spans, share, Start(pieces, i), Start(pieces, i + 1))
  }

  /** Joining the new pieces gives the spliced text: no character and no mask is lost or doubled, however it is cut. */
  lemma {:induction false} JoinGiven<T(!new)>(pieces: seq<seq<T>>, spans: seq<Edit<T>>, share: Share<T>, out: seq<seq<T>>, n: nat)
    requires DisjointSpans(spans, |Join(pieces)|) && Sharing(share) && |out| == |pieces| && n <= |pieces|
    requires forall i :: 0 <= i < |pieces| ==> Given(pieces, spans, share, i, out[i])
    ensures Start(pieces, n) <= |Join(pieces)|
    ensures Join(out[..n]) == RangeOut(Join(pieces), spans, share, 0, Start(pieces, n))
    decreases n
  {
    hide RangeOut, Sharing;
    if n == 0 {
      RangeEmpty(Join(pieces), spans, share, 0);
    } else {
      JoinGiven(pieces, spans, share, out, n - 1);
      PieceAt(pieces, n - 1);
      assert Given(pieces, spans, share, n - 1, out[n - 1]);
      RangeJoin(Join(pieces), spans, share, 0, Start(pieces, n - 1), Start(pieces, n));
      JoinStep(out, n - 1);
    }
  }

  lemma {:induction false} AllGiven<T(!new)>(pieces: seq<seq<T>>, spans: seq<Edit<T>>, share: Share<T>, out: seq<seq<T>>)
    requires DisjointSpans(spans, |Join(pieces)|) && Sharing(share) && |out| == |pieces|
    requires forall i :: 0 <= i < |pieces| ==> Given(pieces, spans, share, i, out[i])
    ensures Ordered(spans, 0, |Join(pieces)|) && Join(out) == Replace(Join(pieces), spans, 0)
  {
    hide RangeOut, Sharing, Given, Join;
    JoinGiven(pieces, spans, share, out, |pieces|);
    assert out[..|pieces|] == out && pieces[..|pieces|] == pieces;
    RangeAll(Join(pieces), spans, share, 0);
  }
}
