/** Masking text whose length is recorded elsewhere (_hwp.py `_mask_same_length`). */
module HwpSameLength {
  import opened Base
  import opened Rules
  import opened MaskedSpans
  import opened HwpRewrite

  /** `_utf16_units`: how many UTF-16 code units a text takes. */
  function Units16(text: seq<point>): nat {
    if text == [] then 0 else (if text[0] > 0xFFFF then 2 else 1) + Units16(text[1..])
  }

  lemma {:induction false} Units16IsEncoded(text: seq<point>)
    ensures Units16(text) == |Encode(text)|
  {
    if text != [] { Units16IsEncoded(text[1..]); }
  }

  lemma {:induction false} Units16Join(a: seq<point>, b: seq<point>)
    ensures Units16(a + b) == Units16(a) + Units16(b)
  {
    if a == [] {
      assert a + b == b;
    } else {
      assert (a + b)[0] == a[0] && (a + b)[1..] == a[1..] + b;
      Units16Join(a[1..], b);
    }
  }

  function Stars(n: nat): (stars: seq<point>)
    ensures |stars| == n
  {
    if n == 0 then [] else [ASTERISK] + Stars(n - 1)
  }

  lemma {:induction false} StarsUnits(n: nat)
    ensures Units16(Stars(n)) == n
  {
    if n > 0 { StarsUnits(n - 1); }
  }

  /** The longest prefix of the mask that fits into `units` code units. */
  function FittingPrefix(mask: seq<point>, units: nat): (n: nat)
    ensures n <= |mask|
  {
    if mask == [] then 0
    else
      var width := if mask[0] > 0xFFFF then 2 else 1;
      if width > units then 0 else 1 + FittingPrefix(mask[1..], units - width)
  }

  /** What goes in place of a span of `units` code units: as much of the mask as fits, then stars. */
  function Fitted(mask: seq<point>, units: nat): (out: seq<point>)
  {
    PrefixFits(mask, units);
    var kept := mask[..FittingPrefix(mask, units)];
    kept + Stars(units - Units16(kept))
  }

  lemma {:induction false} PrefixFits(mask: seq<point>, units: nat)
    ensures Units16(mask[..FittingPrefix(mask, units)]) <= units
    ensures forall n :: FittingPrefix(mask, units) < n <= |mask| ==> Units16(mask[..n]) > units
  {
    var k := FittingPrefix(mask, units);
    if mask != [] {
      var width := if mask[0] > 0xFFFF then 2 else 1;
      if width <= units {
        PrefixFits(mask[1..], units - width);
        assert mask[..k][1..] == mask[1..][..k - 1];
      }
      forall n | k < n <= |mask|
        ensures Units16(mask[..n]) > units
      {
        assert mask[..n][1..] == mask[1..][..n - 1] && mask[..n][0] == mask[0];
      }
    }
  }

  lemma {:induction false} FittedUnits(mask: seq<point>, units: nat)
    ensures Units16(Fitted(mask, units)) == units
  {
    PrefixFits(mask, units);
    var kept := mask[..FittingPrefix(mask, units)];
    Units16Join(kept, Stars(units - Units16(kept)));
    StarsUnits(units - Units16(kept));
  }

  lemma {:induction false} StarsSay(n: nat)
    ensures forall i :: 0 <= i < n ==> Stars(n)[i] == 42
  {
    if n > 0 { StarsSay(n - 1); }
  }

  /** The replacement begins with the longest part of the mask that fits; from there on it is asterisks. */
  lemma {:induction false} FittedSays(mask: seq<point>, units: nat) returns (n: nat)
    ensures n <= |mask| && n <= |Fitted(mask, units)| && Units16(Fitted(mask, units)) == units
    ensures Fitted(mask, units)[..n] == mask[..n] && Units16(mask[..n]) <= units
    ensures forall k :: n < k <= |mask| ==> Units16(mask[..k]) > units
    ensures forall i :: n <= i < |Fitted(mask, units)| ==> Fitted(mask, units)[i] == 42
  {
    n := FittingPrefix(mask, units);
    PrefixFits(mask, units);
    FittedUnits(mask, units);
    StarsSay(units - Units16(mask[..n]));
  }

  /** A mask is left as it is exactly if it has the length. */
  lemma {:induction false} FittedWhole(mask: seq<point>, units: nat)
    ensures Fitted(mask, units) == mask <==> Units16(mask) == units
  {
    FittedUnits(mask, units);
    if Units16(mask) == units {
      var n := FittedSays(mask, units);
      assert mask[..|mask|] == mask;
      Units16Join(mask, Fitted(mask, units)[|mask|..]);
      assert n == |mask| && Fitted(mask, units) == mask + Fitted(mask, units)[n..];
      NoUnits(Fitted(mask, units)[n..]);
    }
  }

  lemma {:induction false} NoUnits(text: seq<point>)
    ensures Units16(text) == 0 <==> text == []
  {
  }

  /** The spans with masks cut or filled to the length of what they replace. */
  function FitAll(text: seq<point>, spans: seq<Span>): (fitted: seq<Span>)
    requires DisjointSpans(spans, |text|)
    ensures |fitted| == |spans|
    ensures forall k :: 0 <= k < |spans| ==>
      fitted[k] == Edit(spans[k].start, spans[k].end,
                        Fitted(SafeMask(spans[k].mask), Units16(text[spans[k].start..spans[k].end])))
  {
    seq(|spans|, k requires 0 <= k < |spans| =>
      Edit(spans[k].start, spans[k].end, Fitted(SafeMask(spans[k].mask), Units16(text[spans[k].start..spans[k].end]))))
  }

  lemma {:induction false} FitOrdered(text: seq<point>, spans: seq<Span>)
    requires DisjointSpans(spans, |text|)
    ensures DisjointSpans(FitAll(text, spans), |text|) && Ordered(FitAll(text, spans), 0, |text|)
  {
    hide Fitted, SafeMask, Units16;
    assert DisjointSpans(FitAll(text, spans), |text|);
    SpansAreOrdered(FitAll(text, spans), 0, |text|);
  }

  ghost predicate SameUnits(text: seq<point>, spans: seq<Span>) {
    forall e :: e in spans ==> e.start <= e.end <= |text| && Units16(e.mask) == Units16(text[e.start..e.end])
  }

  /** Replacing stretches by others of the same length keeps the length. */
  lemma {:induction false} ReplaceKeepsUnits(text: seq<point>, spans: seq<Span>, from: nat)
    requires Ordered(spans, from, |text|) && SameUnits(text, spans)
    ensures from <= |text| && Units16(Replace(text, spans, from)) == Units16(text[from..])
  {
    hide Units16, Replace;
    if spans != [] {
      var s := spans[0];
      assert spans[0..] == spans;
      ReplaceStep(text, spans, 0, from);
      assert SameUnits(text, spans[1..]) && s in spans;
      var rest := Replace(text, spans[1..], s.end);
      ReplaceKeepsUnits(text, spans[1..], s.end);
      UnitsOfThree(text[from..s.start], s.mask, rest);
      UnitsOfThree(text[from..s.start], text[s.start..s.end], text[s.end..]);
      assert text[from..] == text[from..s.start] + text[s.start..s.end] + text[s.end..];
    } else {
      ReplaceNone(text, from);
    }
  }

  lemma {:induction false} UnitsOfThree(a: seq<point>, b: seq<point>, c: seq<point>)
    ensures Units16(a + b + c) == Units16(a) + Units16(b) + Units16(c)
  {
    hide Units16;
    Units16Join(a + b, c);
    Units16Join(a, b);
  }

  lemma {:induction false} FitKeepsUnits(text: seq<point>, spans: seq<Span>)
    requires DisjointSpans(spans, |text|)
    ensures SameUnits(text, FitAll(text, spans))
  {
    hide Fitted, SafeMask, Units16;
    var fitted := FitAll(text, spans);
    forall k | 0 <= k < |fitted|
      ensures Units16(fitted[k].mask) == Units16(text[fitted[k].start..fitted[k].end])
    {
      FittedUnits(SafeMask(spans[k].mask), Units16(text[spans[k].start..spans[k].end]));
    }
  }

  /** A span whose mask is printable and has the length of what it replaces. */
  ghost predicate Fits(text: seq<point>, s: Span)
    requires s.start <= s.end <= |text|
  {
    Units16(s.mask) == Units16(text[s.start..s.end]) && forall i :: 0 <= i < |s.mask| ==> s.mask[i] >= 32
  }

  lemma {:induction false} FitOne(text: seq<point>, s: Span)
    requires s.start <= s.end <= |text|
    ensures Fitted(SafeMask(s.mask), Units16(text[s.start..s.end])) == s.mask <==> Fits(text, s)
  {
    hide Fitted;
    var safe, units := SafeMask(s.mask), Units16(text[s.start..s.end]);
    if Fits(text, s) {
      assert safe == s.mask;
      FittedWhole(s.mask, units);
    } else if Fitted(safe, units) == s.mask {
      FittedUnits(safe, units);
      var n := FittedSays(safe, units);
      forall i | 0 <= i < |s.mask|
        ensures s.mask[i] >= 32
      {
        if i < n { assert s.mask[..n][i] == safe[..n][i]; }
      }
    }
  }

  /** The result is the masked text itself when every mask is printable and has the length of what it replaces; no other
      spans stay as they are. */
  lemma {:induction false} FitsAreKept(text: seq<point>, spans: seq<Span>)
    requires DisjointSpans(spans, |text|)
    ensures FitAll(text, spans) == spans <==> forall k :: 0 <= k < |spans| ==> Fits(text, spans[k])
    ensures Ordered(FitAll(text, spans), 0, |text|) && Ordered(spans, 0, |text|)
    ensures (forall k :: 0 <= k < |spans| ==> Fits(text, spans[k])) ==>
              Replace(text, FitAll(text, spans), 0) == Replace(text, spans, 0)
  {
    hide *;
    FitOrdered(text, spans);
    SpansInside(spans, |text|);
    SpansAreOrdered(spans, 0, |text|);
    forall k | 0 <= k < |spans|
      ensures FitAll(text, spans)[k] == spans[k] <==> Fits(text, spans[k])
    {
      FitOne(text, spans[k]);
      FitAt(text, spans, k);
    }
    FitCount(text, spans);
    if forall k :: 0 <= k < |spans| ==> Fits(text, spans[k]) {
      assert FitAll(text, spans) == spans;
    } else {
      var k :| 0 <= k < |spans| && !Fits(text, spans[k]);
      assert FitAll(text, spans)[k] != spans[k];
    }
  }

  lemma {:induction false} SameLengthMasked(text: Text, rules: seq<Rule>, spans: seq<Span>)
    requires AllValid(rules) && SpansFor(text, rules, spans) && DisjointSpans(spans, |text|)
    requires forall k :: 0 <= k < |spans| ==> Fits(text, spans[k])
    ensures Ordered(FitAll(text, spans), 0, |text|) && Replace(text, FitAll(text, spans), 0) == Masked(text, rules)
  {
    hide *;
    SpansSay(text, rules, spans);
    FitsAreKept(text, spans);
  }

  lemma {:induction false} FitCount(text: seq<point>, spans: seq<Span>)
    requires DisjointSpans(spans, |text|)
    ensures |FitAll(text, spans)| == |spans|
  {
  }

  lemma {:induction false} SpansInside(spans: seq<Span>, n: nat)
    requires DisjointSpans(spans, n)
    ensures forall k :: 0 <= k < |spans| ==> spans[k].start < spans[k].end <= n
  {
  }

  /** The masks are cut to fit, character by character. */
  method FitMask(mask: seq<point>, units: nat) returns (out: seq<point>)
    ensures out == Fitted(mask, units)
  {
    var kept: seq<point>, used := [], 0;
    var k := 0;
    assert mask[0..] == mask;
    while k < |mask|
      invariant k <= |mask| && kept == mask[..k] && used == Units16(kept) <= units
      invariant FittingPrefix(mask, units) == k + FittingPrefix(mask[k..], units - used)
    {
      var width := if mask[k] > 0xFFFF then 2 else 1;
      assert mask[k..][0] == mask[k] && mask[k..][1..] == mask[k + 1..];
      if used + width > units { break; }
      Units16Join(kept, [mask[k]]);
      assert Units16([mask[k]]) == width;
      kept := kept + [mask[k]];
      used := used + width;
      k := k + 1;
    }
    out := kept + Stars(units - used);
  }

  /** Text whose recorded length must stay right: the result has as many UTF-16 code units as the original, and nothing
      outside the spans changes. */
  method MaskSameLength(text: Text, rules: seq<Rule>) returns (out: Text, hits: nat, ghost spans: seq<Span>)
    requires AllValid(rules)
    ensures SpansFor(text, rules, spans) && hits == |spans| && DisjointSpans(spans, |text|)
    ensures Ordered(FitAll(text, spans), 0, |text|) && out == Replace(text, FitAll(text, spans), 0)
    ensures |Encode(out)| == |Encode(text)|
    ensures hits == 0 ==> out == text
  {
    hide *;
    var found := FindMaskedSpans(text, rules);
    SpansSay(text, rules, found);
    spans, hits := found, |found|;
    FitOrdered(text, found);
    FitKeepsUnits(text, found);
    ghost var fitted := FitAll(text, found);
    out := [];
    var last: nat := 0;
    assert fitted[0..] == fitted && [] + Replace(text, fitted, 0) == Replace(text, fitted, 0);
    for k := 0 to |found|
      invariant last <= |text| && Ordered(fitted[k..], last, |text|)
      invariant out + Replace(text, fitted[k..], last) == Replace(text, fitted, 0)
      invariant k == 0 ==> out == [] && last == 0
    {
      var s := found[k];
      FitAt(text, found, k);
      var mask := FitMask(SafeMask(s.mask), Units16(text[s.start..s.end]));
      ReplaceStep(text, fitted, k, last);
      Assoc4(out, text[last..s.start], mask, Replace(text, fitted[k + 1..], s.end));
      out := out + text[last..s.start] + mask;
      last := s.end;
    }
    assert fitted[|found|..] == [];
    ReplaceNone(text, last);
    out := out + text[last..];
    ReplaceKeepsUnits(text, fitted, 0);
    assert text[0..] == text && [] + text == text;
    Units16IsEncoded(out);
    Units16IsEncoded(text);
  }

  lemma {:induction false} FitAt(text: Text, spans: seq<Span>, k: nat)
    requires DisjointSpans(spans, |text|) && k < |spans|
    ensures spans[k].start < spans[k].end <= |text|
    ensures FitAll(text, spans)[k] == Edit(spans[k].start, spans[k].end,
                                           Fitted(SafeMask(spans[k].mask), Units16(text[spans[k].start..spans[k].end])))
  {
    hide Fitted, SafeMask, Units16;
  }
}
