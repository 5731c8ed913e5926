/** Making a mask safe where it is written (files.py `_raw_safe`, and `html.escape` without quotes). */
module HtmlSafe {
  import opened Base
  import opened HtmlScan
  import opened HtmlClosing
  import opened HtmlSegments

  const SPACE: point := 32
  const AMPERSAND: point := 38
  const BACKSLASH: point := 92

  /** What a script or style is closed by begins with `</`. */
  const END_TAG_OPEN: Text := [LT, SLASH]

  // ---------------------------------------------------------------- str.replace

  /** `s.replace(pattern, put)`: from left to right, without overlap. */
  function ReplaceAll(s: Text, pattern: Text, put: Text): Text
    requires pattern != []
  {
    if |s| < |pattern| then s
    else if s[..|pattern|] == pattern then put + ReplaceAll(s[|pattern|..], pattern, put)
    else [s[0]] + ReplaceAll(s[1..], pattern, put)
  }

  /** A pattern with `c` in front of its last character. */
  function Broken(pattern: Text, c: point): Text
    requires pattern != []
  {
    pattern[..|pattern| - 1] + [c] + [pattern[|pattern| - 1]]
  }

  /** `_raw_safe`. */
  function RawSafe(mask: Text): Text {
    ReplaceAll(ReplaceAll(ReplaceAll(mask, END_TAG_OPEN, Broken(END_TAG_OPEN, BACKSLASH)),
                          COMMENT_CLOSE, Broken(COMMENT_CLOSE, SPACE)),
               CDATA_CLOSE, Broken(CDATA_CLOSE, SPACE))
  }

  /** `html.escape(mask, quote=False)`. */
  function EscapeText(mask: Text): Text {
    ReplaceAll(ReplaceAll(ReplaceAll(mask, [AMPERSAND], [AMPERSAND, 97, 109, 112, 59]), [LT], [AMPERSAND, 108, 116, 59]),
               [GT], [AMPERSAND, 103, 116, 59])
  }

  lemma {:induction false} CharGone(s: Text, x: point, put: Text, y: point)
    requires y !in put && (y == x || y !in s)
    ensures y !in ReplaceAll(s, [x], put)
    decreases |s|
  {
    if s != [] {
      assert s[..1] == [s[0]];
      CharGone(s[1..], x, put, y);
    }
  }

  /** An escaped mask holds no `<` and no `>`. */
  lemma {:induction false} EscapedHoldsNoTag(mask: Text)
    ensures LT !in EscapeText(mask) && GT !in EscapeText(mask)
  {
    var a := ReplaceAll(mask, [AMPERSAND], [AMPERSAND, 97, 109, 112, 59]);
    CharGone(a, LT, [AMPERSAND, 108, 116, 59], LT);
    var b := ReplaceAll(a, [LT], [AMPERSAND, 108, 116, 59]);
    CharGone(b, GT, [AMPERSAND, 103, 116, 59], LT);
    CharGone(b, GT, [AMPERSAND, 103, 116, 59], GT);
  }

  // ---------------------------------------------------------------- an escaped mask between what is around it

  /** Nowhere in the text does a tag open. */
  ghost predicate Tagless(s: Text) {
    forall i :: 0 <= i && i + 1 < |s| && s[i] == LT ==> !Opens(s[i + 1])
  }

  /** Something that does not open a tag behind a `<`. */
  predicate Bland(mask: Text) {
    mask != [] && !Opens(mask[0])
  }

  lemma {:induction false} FirstReplaced(s: Text, x: point, put: Text)
    requires put != []
    ensures s == [] <==> ReplaceAll(s, [x], put) == []
    ensures s != [] ==> ReplaceAll(s, [x], put)[0] == if s[0] == x then put[0] else s[0]
  {
    if s != [] { assert s[..1] == [s[0]]; }
  }

  /** Escaping leaves whether a mask is bland. */
  lemma {:induction false} EscapedBland(mask: Text)
    ensures Bland(EscapeText(mask)) <==> Bland(mask)
  {
    var amp, lt, gt: Text := [AMPERSAND, 97, 109, 112, 59], [AMPERSAND, 108, 116, 59], [AMPERSAND, 103, 116, 59];
    var a := ReplaceAll(mask, [AMPERSAND], amp);
    var b := ReplaceAll(a, [LT], lt);
    FirstReplaced(mask, AMPERSAND, amp);
    FirstReplaced(a, LT, lt);
    FirstReplaced(b, GT, gt);
  }

  /** Between texts without a tag, a bland mask without `<` brings none about. */
  lemma {:induction false} BlandIsSafe(a: Text, m: Text, b: Text)
    requires Tagless(a) && Tagless(b) && LT !in m && Bland(m)
    ensures Tagless(a + m + b)
  {
    var s, behind := a + m + b, |a| + |m|;
    forall i | |a| <= i < behind
      ensures s[i] != LT
    {
      assert s[i] == m[i - |a|];
    }
    forall i | 0 <= i && i + 1 < |s| && s[i] == LT
      ensures !Opens(s[i + 1])
    {
      assert i < |a| || i >= behind;
      if i < |a| {
        assert s[i] == a[i];
        assert s[i + 1] == if i + 1 < |a| then a[i + 1] else m[0];
      } else {
        assert s[i] == b[i - behind] && s[i + 1] == b[i + 1 - behind];
      }
    }
  }

  /** An escaped mask opens no tag between any texts without one exactly if it is not empty and does not begin like what
      opens a tag behind a `<`. */
  lemma {:induction false} EscapedExactly(mask: Text)
    ensures Bland(mask) <==> forall a: Text, b: Text :: Tagless(a) && Tagless(b) ==> Tagless(a + EscapeText(mask) + b)
  {
    EscapedHoldsNoTag(mask);
    EscapedBland(mask);
    hide EscapeText;
    var m := EscapeText(mask);
    if Bland(mask) {
      forall a: Text, b: Text | Tagless(a) && Tagless(b)
        ensures Tagless(a + m + b)
      {
        BlandIsSafe(a, m, b);
      }
    } else {
      var a: Text, b: Text := [LT], if m == [] then [SLASH] else [];
      assert Tagless(a) && Tagless(b);
      var s := a + m + b;
      assert s[0] == LT && Opens(s[1]);
      assert !Tagless(s);
    }
  }

  /** In `<9 ` the `<` is text; with the mask `a` for the `9` it opens a tag. */
  lemma {:induction false} MaskOpensTag()
    ensures Tagless([LT, 57, SPACE]) && EscapeText([97]) == [97]
    ensures TagStart([LT] + EscapeText([97]) + [SPACE], 0) && !Bland([97])
  {
    Untouched(97, AMPERSAND, [AMPERSAND, 97, 109, 112, 59]);
    Untouched(97, LT, [AMPERSAND, 108, 116, 59]);
    Untouched(97, GT, [AMPERSAND, 103, 116, 59]);
    assert ([LT] + EscapeText([97]) + [SPACE])[1] == 97;
  }

  lemma {:induction false} Untouched(c: point, x: point, put: Text)
    requires c != x
    ensures ReplaceAll([c], [x], put) == [c]
  {
    assert [c][..1] == [c] && [c][1..] == [];
  }

  /** Bland masks leave a text without a tag, wherever they are put. */
  lemma {:induction false} ReplaceStaysTagless(s: Text, edits: seq<Edit<point>>, from: nat)
    requires Ordered(edits, from, |s|) && Tagless(s)
    requires forall k :: 0 <= k < |edits| ==> LT !in edits[k].mask && Bland(edits[k].mask)
    ensures Tagless(Replace(s, edits, from))
    decreases |edits|
  {
    hide Tagless, Bland;
    OrderedBounds(edits, from, |s|);
    if edits == [] {
      PartIsTagless(s, from, |s|);
      assert s[from..] == s[from..|s|];
    } else {
      PartIsTagless(s, from, edits[0].start);
      ReplaceStaysTagless(s, edits[1..], edits[0].end);
      BlandIsSafe(s[from..edits[0].start], edits[0].mask, Replace(s, edits[1..], edits[0].end));
    }
  }

  lemma {:induction false} PartIsTagless(s: Text, a: nat, b: nat)
    requires a <= b <= |s| && Tagless(s)
    ensures Tagless(s[a..b])
  {
    forall i | 0 <= i && i + 1 < b - a && s[a..b][i] == LT
      ensures !Opens(s[a..b][i + 1])
    {
      assert s[a + i] == LT;
    }
  }

  /** `q` is nowhere in `s`. */
  ghost predicate Free(s: Text, q: Text) {
    forall i: nat :: !StartsWith(s, q, i)
  }

  /** A text without `c` lies before it or behind it. */
  lemma {:induction false} Around(a: Text, c: point, b: Text, q: Text, i: nat)
    requires c !in q && q != [] && StartsWith(a + [c] + b, q, i)
    ensures StartsWith(a, q, i) || (i > |a| && StartsWith(b, q, i - |a| - 1))
  {
    var all := a + [c] + b;
    forall j: nat | i <= j < i + |q|
      ensures all[j] != c
    {
      assert all[j] == q[j - i];
    }
    assert all[|a|] == c;
    if i <= |a| {
      assert a[i..i + |q|] == q;
    } else {
      assert b[i - |a| - 1..i - |a| - 1 + |q|] == q;
    }
  }

  /** Where a text lies in a sequence with a head. */
  lemma {:induction false} ConsAt(h: point, t: Text, q: Text, i: nat)
    requires q != []
    ensures i == 0 ==> (StartsWith([h] + t, q, i) <==> q[0] == h && StartsWith(t, q[1..], 0))
    ensures i > 0 ==> (StartsWith([h] + t, q, i) <==> StartsWith(t, q, i - 1))
  {
    var all := [h] + t;
    if i == 0 {
      if |q| <= |all| { assert all[0..|q|] == [h] + t[0..|q| - 1]; }
      assert q == [q[0]] + q[1..];
    } else if i + |q| <= |all| {
      assert all[i..i + |q|] == t[i - 1..i - 1 + |q|];
    }
  }

  /** The two ways the search goes on: a match is broken up, anything else is copied. */
  lemma {:induction false} ReplaceNext(s: Text, pattern: Text, c: point)
    requires |pattern| >= 2 && |s| >= |pattern|
    ensures var n := |pattern|;
            if s[..n] == pattern then
              && ReplaceAll(s, pattern, Broken(pattern, c))
                   == s[..n - 1] + [c] + ([s[n - 1]] + ReplaceAll(s[n..], pattern, Broken(pattern, c)))
              && s[n - 1] == pattern[n - 1] && s[n - 1..] == [s[n - 1]] + s[n..]
            else
              && ReplaceAll(s, pattern, Broken(pattern, c)) == [s[0]] + ReplaceAll(s[1..], pattern, Broken(pattern, c))
              && s == [s[0]] + s[1..]
  {
  }

  lemma {:induction false} Short(s: Text, pattern: Text, c: point)
    requires |s| < |pattern|
    ensures ReplaceAll(s, pattern, Broken(pattern, c)) == s
  {
  }

  /** What the text begins with after breaking the pattern up, it began with before. */
  lemma {:induction false} PrefixBefore(s: Text, pattern: Text, c: point, q: Text)
    requires |pattern| >= 2 && c !in q && StartsWith(ReplaceAll(s, pattern, Broken(pattern, c)), q, 0)
    ensures StartsWith(s, q, 0)
    decreases |s|
  {
    hide ReplaceAll, Broken;
    if q != [] {
      if |s| < |pattern| {
        Short(s, pattern, c);
      } else {
        ReplaceNext(s, pattern, c);
        var n, rest := |pattern|, ReplaceAll(s[1..], pattern, Broken(pattern, c));
        if s[..n] == pattern {
          Around(s[..n - 1], c, [s[n - 1]] + ReplaceAll(s[n..], pattern, Broken(pattern, c)), q, 0);
          assert s[..n - 1][0..|q|] == s[0..|q|];
        } else {
          ConsAt(s[0], rest, q, 0);
          PrefixBefore(s[1..], pattern, c, q[1..]);
          ConsAt(s[0], s[1..], q, 0);
        }
      }
    }
  }

  /** Breaking a pattern up brings in no text that does not hold the new character. */
  lemma {:induction false} NothingNew(s: Text, pattern: Text, c: point, q: Text, i: nat)
    requires |pattern| >= 2 && c !in q && q != [] && StartsWith(ReplaceAll(s, pattern, Broken(pattern, c)), q, i)
    ensures !Free(s, q)
    decreases |s|, 1
  {
    hide *;
    if |s| < |pattern| {
      Short(s, pattern, c);
      NotFree(s, q, i);
    } else {
      ReplaceNext(s, pattern, c);
      var n := |pattern|;
      if s[..n] == pattern {
        var rest := ReplaceAll(s[n..], pattern, Broken(pattern, c));
        Around(s[..n - 1], c, [s[n - 1]] + rest, q, i);
        if StartsWith(s[..n - 1], q, i) {
          assert s[..n - 1] == s[0..n - 1];
          Within(s, 0, n - 1, q, i);
          NotFree(s, q, i);
        } else {
          if i > n {
            ConsAt(s[n - 1], rest, q, i - n);
            NothingNew(s[n..], pattern, c, q, i - n - 1);
          }
          NothingNewBehind(s[n - 1], s[n..], pattern, c, q, i - n);
          NotFreeLater(s, n - 1, q);
        }
      } else {
        NothingNewCopied(s, pattern, c, q, i);
      }
    }
  }

  lemma {:induction false} NothingNewCopied(s: Text, pattern: Text, c: point, q: Text, i: nat)
    requires |pattern| >= 2 && c !in q && q != [] && StartsWith(ReplaceAll(s, pattern, Broken(pattern, c)), q, i)
    requires |s| >= |pattern| && s[..|pattern|] != pattern
    ensures !Free(s, q)
    decreases |s|, 0
  {
    hide *;
    ReplaceNext(s, pattern, c);
    if i > 0 {
      ConsAt(s[0], ReplaceAll(s[1..], pattern, Broken(pattern, c)), q, i);
      NothingNew(s[1..], pattern, c, q, i - 1);
    }
    NothingNewBehind(s[0], s[1..], pattern, c, q, i);
  }

  /** The same behind a character that is copied. */
  lemma {:induction false} NothingNewBehind(h: point, t: Text, pattern: Text, c: point, q: Text, i: nat)
    requires |pattern| >= 2 && c !in q && q != []
    requires StartsWith([h] + ReplaceAll(t, pattern, Broken(pattern, c)), q, i) && (i > 0 ==> !Free(t, q))
    ensures !Free([h] + t, q)
  {
    hide ReplaceAll, Broken, Free;
    if i > 0 {
      assert ([h] + t)[1..] == t;
      NotFreeLater([h] + t, 1, q);
    } else {
      ConsAt(h, ReplaceAll(t, pattern, Broken(pattern, c)), q, 0);
      PrefixBefore(t, pattern, c, q[1..]);
      ConsAt(h, t, q, 0);
      NotFree([h] + t, q, 0);
    }
  }

  lemma {:induction false} Within(s: Text, a: nat, b: nat, q: Text, i: nat)
    requires a <= b <= |s| && StartsWith(s[a..b], q, i)
    ensures StartsWith(s, q, a + i)
  {
    CharsAt(s[a..b], q, i);
    forall k: nat | k < |q|
      ensures s[a + i + k] == q[k]
    {
      assert s[a..b][i + k] == s[a + i + k];
    }
    assert s[a + i..a + i + |q|] == q;
  }

  lemma {:induction false} NotFree(s: Text, q: Text, i: nat)
    requires StartsWith(s, q, i)
    ensures !Free(s, q)
  {
  }

  lemma {:induction false} NotFreeLater(s: Text, k: nat, q: Text)
    requires k <= |s| && !Free(s[k..], q)
    ensures !Free(s, q)
  {
    var i: nat :| StartsWith(s[k..], q, i);
    assert s[k + i..k + i + |q|] == s[k..][i..i + |q|];
    assert StartsWith(s, q, k + i);
  }

  /** A broken-up pattern is gone, if it does not begin as it ends. */
  lemma {:induction false} PatternGone(s: Text, pattern: Text, c: point, i: nat)
    requires |pattern| >= 2 && c !in pattern && pattern[0] != pattern[|pattern| - 1]
    ensures !StartsWith(ReplaceAll(s, pattern, Broken(pattern, c)), pattern, i)
    decreases |s|
  {
    hide ReplaceAll, Broken;
    if |s| < |pattern| {
      Short(s, pattern, c);
    } else {
      ReplaceNext(s, pattern, c);
      var n := |pattern|;
      if s[..n] == pattern {
        var rest := ReplaceAll(s[n..], pattern, Broken(pattern, c));
        if StartsWith(s[..n - 1] + [c] + ([s[n - 1]] + rest), pattern, i) {
          Around(s[..n - 1], c, [s[n - 1]] + rest, pattern, i);
          ConsAt(s[n - 1], rest, pattern, i - n);
          PatternGone(s[n..], pattern, c, if i > n then i - n - 1 else 0);
        }
      } else {
        var rest := ReplaceAll(s[1..], pattern, Broken(pattern, c));
        ConsAt(s[0], rest, pattern, i);
        if i > 0 {
          PatternGone(s[1..], pattern, c, i - 1);
        } else if StartsWith(rest, pattern[1..], 0) {
          PrefixBefore(s[1..], pattern, c, pattern[1..]);
          ConsAt(s[0], s[1..], pattern, 0);
          assert s[0..n] == s[..n];
        }
      }
    }
  }

  lemma {:induction false} BreakUp(s: Text, pattern: Text, c: point, q: Text)
    requires |pattern| >= 2 && c !in pattern && pattern[0] != pattern[|pattern| - 1]
    requires q != [] && c !in q && (q == pattern || Free(s, q))
    ensures Free(ReplaceAll(s, pattern, Broken(pattern, c)), q)
  {
    forall i: nat
      ensures !StartsWith(ReplaceAll(s, pattern, Broken(pattern, c)), q, i)
    {
      if q == pattern {
        PatternGone(s, pattern, c, i);
      } else if StartsWith(ReplaceAll(s, pattern, Broken(pattern, c)), q, i) {
        NothingNew(s, pattern, c, q, i);
      }
    }
  }

  /** A safe mask holds none of the three texts that would close the place it is written in. */
  lemma {:induction false} RawSafeClosesNothing(mask: Text)
    ensures Free(RawSafe(mask), END_TAG_OPEN) && Free(RawSafe(mask), COMMENT_CLOSE) && Free(RawSafe(mask), CDATA_CLOSE)
  {
    hide Free, ReplaceAll, Broken;
    var a := ReplaceAll(mask, END_TAG_OPEN, Broken(END_TAG_OPEN, BACKSLASH));
    var b := ReplaceAll(a, COMMENT_CLOSE, Broken(COMMENT_CLOSE, SPACE));
    BreakUp(mask, END_TAG_OPEN, BACKSLASH, END_TAG_OPEN);
    BreakUp(a, COMMENT_CLOSE, SPACE, END_TAG_OPEN);
    BreakUp(a, COMMENT_CLOSE, SPACE, COMMENT_CLOSE);
    BreakUp(b, CDATA_CLOSE, SPACE, END_TAG_OPEN);
    BreakUp(b, CDATA_CLOSE, SPACE, COMMENT_CLOSE);
    BreakUp(b, CDATA_CLOSE, SPACE, CDATA_CLOSE);
  }

  // ---------------------------------------------------------------- a mask between what is around it

  /** The closing texts: one character repeated, then another one. */
  predicate Closer(q: Text) {
    |q| >= 2 && q[|q| - 1] != q[0] && forall i :: 0 <= i < |q| - 1 ==> q[i] == q[0]
  }

  /** No end of the mask can be part of the closing text, and there is something between what is before and behind it. */
  predicate Fits(mask: Text, q: Text)
    requires Closer(q)
  {
    && mask != [] && mask[|mask| - 1] != q[0]
    && forall k :: 1 <= k < |q| ==> !StartsWith(mask, q[k..], 0)
  }

  lemma {:induction false} InPart(s: Text, a: nat, part: Text, q: Text, i: nat)
    requires a + |part| <= |s| && s[a..a + |part|] == part && StartsWith(s, q, i) && a <= i && i + |q| <= a + |part|
    ensures StartsWith(part, q, i - a)
  {
    forall j: nat | j < |part|
      ensures part[j] == s[a + j]
    {
      assert s[a..a + |part|][j] == s[a + j];
    }
    assert part[i - a..i - a + |q|] == s[i..i + |q|];
  }

  /** Put between texts without the closing text, a mask that fits brings none about. */
  lemma {:induction false} FittingIsSafe(a: Text, m: Text, b: Text, q: Text)
    requires Closer(q) && Free(a, q) && Free(m, q) && Free(b, q) && Fits(m, q)
    ensures Free(a + m + b, q)
  {
    forall i: nat
      ensures !StartsWith(a + m + b, q, i)
    {
      if StartsWith(a + m + b, q, i) { FittingAt(a, m, b, q, i); }
    }
  }

  lemma {:induction false} FittingAt(a: Text, m: Text, b: Text, q: Text, i: nat)
    requires Closer(q) && Fits(m, q) && StartsWith(a + m + b, q, i)
    ensures !Free(a, q) || !Free(m, q) || !Free(b, q)
  {
    Straddle(a, m, b, q, i);
  }

  lemma {:induction false} CharsAt(s: Text, q: Text, i: nat)
    requires StartsWith(s, q, i)
    ensures i + |q| <= |s| && forall k :: 0 <= k < |q| ==> q[k] == s[i + k]
  {
    forall k | 0 <= k < |q|
      ensures q[k] == s[i + k]
    {
      assert s[i..i + |q|][k] == s[i + k];
    }
  }

  /** Where a text can lie in three texts in a row. */
  lemma {:induction false} Straddle(a: Text, m: Text, b: Text, q: Text, i: nat)
    requires m != [] && StartsWith(a + m + b, q, i)
    ensures var hi := |a| + |m|;
            || StartsWith(a, q, i) || (i >= |a| && StartsWith(m, q, i - |a|)) || (i >= hi && StartsWith(b, q, i - hi))
            || (i < hi < i + |q| && q[hi - 1 - i] == m[|m| - 1])
            || (i < |a| < i + |q| && StartsWith(m, q[|a| - i..], 0))
  {
    var s, lo, hi := a + m + b, |a|, |a| + |m|;
    assert s[0..lo] == a && s[lo..hi] == m && s[hi..] == b;
    if i + |q| <= lo {
      InPart(s, 0, a, q, i);
    } else if hi <= i {
      InPart(s, hi, b, q, i);
    } else if i + |q| > hi {
      CharsAt(s, q, i);
    } else if i < lo {
      assert m[0..|q| - (lo - i)] == s[lo..i + |q|] == s[i..i + |q|][lo - i..];
    } else {
      InPart(s, lo, m, q, i);
    }
  }

  lemma {:induction false} ShortIsFree(s: Text, q: Text)
    requires |s| < |q|
    ensures Free(s, q)
  {
  }

  /** A mask without the closing text fits exactly if no surroundings without it close. */
  lemma {:induction false} FitsExactly(m: Text, q: Text)
    requires Closer(q) && Free(m, q)
    ensures Fits(m, q) <==> forall a: Text, b: Text :: Free(a, q) && Free(b, q) ==> Free(a + m + b, q)
  {
    if Fits(m, q) {
      forall a: Text, b: Text | Free(a, q) && Free(b, q)
        ensures Free(a + m + b, q)
      {
        FittingIsSafe(a, m, b, q);
      }
    } else {
      var a, b := Closing(m, q);
      ShortIsFree(a, q);
      ShortIsFree(b, q);
    }
  }

  /** Surroundings that close with a mask that does not fit. */
  lemma {:induction false} Closing(m: Text, q: Text) returns (a: Text, b: Text)
    requires Closer(q) && !Fits(m, q)
    ensures |a| < |q| && |b| < |q| && !Free(a + m + b, q)
  {
    if m == [] {
      a, b := q[..1], q[1..];
      assert a + m + b == q;
      NotFree(a + m + b, q, 0);
    } else if m[|m| - 1] == q[0] {
      a, b := [], q[1..];
      var i := |m| - 1;
      assert (a + m + b)[i..i + |q|] == [m[i]] + q[1..] == q;
      NotFree(a + m + b, q, i);
    } else {
      var k :| 1 <= k < |q| && StartsWith(m, q[k..], 0);
      a, b := q[..k], [];
      assert (a + m + b)[0..|q|] == q[..k] + m[0..|q| - k] == q;
      NotFree(a + m + b, q, 0);
    }
  }

  // ---------------------------------------------------------------- safe masks in raw text

  /** The three texts that close a script or style, a comment and a CDATA section. */
  predicate Closes(q: Text) {
    q == END_TAG_OPEN || q == COMMENT_CLOSE || q == CDATA_CLOSE
  }

  lemma {:induction false} ClosesIsCloser(q: Text)
    requires Closes(q)
    ensures Closer(q)
  {
  }

  /** Breaking patterns up leaves the first and the last character, and the second unless a pattern stands in front. */
  lemma {:induction false} EndsKept(s: Text, pattern: Text, c: point)
    requires |pattern| >= 2
    ensures var out := ReplaceAll(s, pattern, Broken(pattern, c));
            && (s == [] <==> out == [])
            && (s != [] ==> out[0] == s[0] && out[|out| - 1] == s[|s| - 1])
            && (|s| >= 2 && !StartsWith(s, pattern, 0) ==> |out| >= 2 && out[1] == s[1])
    decreases |s|
  {
    hide ReplaceAll, Broken;
    if |s| < |pattern| {
      Short(s, pattern, c);
    } else {
      ReplaceNext(s, pattern, c);
      var n := |pattern|;
      assert s[0..n] == s[..n];
      if s[..n] == pattern {
        EndsKept(s[n..], pattern, c);
      } else {
        EndsKept(s[1..], pattern, c);
      }
    }
  }

  /** Making a mask safe does not change whether it fits. */
  lemma {:induction false} RawSafeFits(mask: Text, q: Text)
    requires Closes(q)
    ensures Closer(q) && (Fits(RawSafe(mask), q) <==> Fits(mask, q))
  {
    var a := ReplaceAll(mask, END_TAG_OPEN, Broken(END_TAG_OPEN, BACKSLASH));
    var b := ReplaceAll(a, COMMENT_CLOSE, Broken(COMMENT_CLOSE, SPACE));
    BreakFits(mask, END_TAG_OPEN, BACKSLASH, q);
    BreakFits(a, COMMENT_CLOSE, SPACE, q);
    BreakFits(b, CDATA_CLOSE, SPACE, q);
  }

  lemma {:induction false} BreakFits(s: Text, pattern: Text, c: point, q: Text)
    requires Closes(q) && Closes(pattern) && (c == BACKSLASH || c == SPACE)
    ensures Closer(q) && (Fits(ReplaceAll(s, pattern, Broken(pattern, c)), q) <==> Fits(s, q))
  {
    var out := ReplaceAll(s, pattern, Broken(pattern, c));
    ClosesIsCloser(q);
    EndsKept(s, pattern, c);
    hide ReplaceAll, Broken;
    forall k | 1 <= k < |q|
      ensures StartsWith(out, q[k..], 0) <==> StartsWith(s, q[k..], 0)
    {
      if StartsWith(out, q[k..], 0) { PrefixBefore(s, pattern, c, q[k..]); }
      if StartsWith(s, q[k..], 0) { TailKept(s, pattern, out, q, k); }
    }
  }

  lemma {:induction false} FirstTwo(s: Text, pattern: Text)
    requires |pattern| >= 2
    ensures StartsWith(s, pattern, 0) ==> |s| >= 2 && s[0] == pattern[0] && s[1] == pattern[1]
  {
    if StartsWith(s, pattern, 0) { CharsAt(s, pattern, 0); }
  }

  lemma {:induction false} TailKept(s: Text, pattern: Text, out: Text, q: Text, k: nat)
    requires Closes(q) && Closes(pattern) && 1 <= k < |q| && StartsWith(s, q[k..], 0) && s != []
    requires out != [] && out[0] == s[0] && (|s| >= 2 && !StartsWith(s, pattern, 0) ==> |out| >= 2 && out[1] == s[1])
    ensures StartsWith(out, q[k..], 0)
  {
    assert s[0] == s[0..|q| - k][0] == q[k];
    if k + 1 == |q| {
      assert out[0..1] == [out[0]] == q[k..];
    } else {
      assert s[1] == s[0..|q| - k][1] == q[k + 1];
      FirstTwo(s, pattern);
      assert out[0..2] == [out[0], out[1]] == q[k..];
    }
  }

  /** `_raw_safe` keeps a mask from closing whatever it is put into exactly if the mask itself fits: it is not empty, does
      not begin like the rest of the closing text and does not end like its start. */
  lemma {:induction false} RawSafeExactly(mask: Text, q: Text)
    requires Closes(q)
    ensures Closer(q)
    ensures Fits(mask, q) <==> forall a: Text, b: Text :: Free(a, q) && Free(b, q) ==> Free(a + RawSafe(mask) + b, q)
  {
    hide RawSafe, Fits, Free;
    RawSafeClosesNothing(mask);
    RawSafeFits(mask, q);
    FitsExactly(RawSafe(mask), q);
  }

  /** The mask `>` behind `--` closes a comment. */
  lemma {:induction false} MaskClosesComment()
    ensures RawSafe([GT]) == [GT] && !Fits([GT], COMMENT_CLOSE) && Free([DASH, DASH], COMMENT_CLOSE)
    ensures [DASH, DASH] + RawSafe([GT]) == COMMENT_CLOSE
  {
    assert StartsWith([GT], COMMENT_CLOSE[2..], 0);
  }

  /** Masks that fit leave a text without the closing text, wherever they are put. */
  lemma {:induction false} ReplaceStaysFree(s: Text, edits: seq<Edit<point>>, from: nat, q: Text)
    requires Closes(q) && Ordered(edits, from, |s|) && Free(s, q)
    requires Closer(q) && forall k :: 0 <= k < |edits| ==> Free(edits[k].mask, q) && Fits(edits[k].mask, q)
    ensures Free(Replace(s, edits, from), q)
    decreases |edits|
  {
    hide Free, Fits;
    OrderedBounds(edits, from, |s|);
    if edits == [] {
      PartIsFree(s, from, |s|, q);
      assert s[from..] == s[from..|s|];
    } else {
      PartIsFree(s, from, edits[0].start, q);
      ReplaceStaysFree(s, edits[1..], edits[0].end, q);
      FittingIsSafe(s[from..edits[0].start], edits[0].mask, Replace(s, edits[1..], edits[0].end), q);
    }
  }

  lemma {:induction false} PartIsFree(s: Text, a: nat, b: nat, q: Text)
    requires a <= b <= |s| && Free(s, q)
    ensures Free(s[a..b], q)
  {
    forall i: nat
      ensures !StartsWith(s[a..b], q, i)
    {
      if StartsWith(s[a..b], q, i) { Within(s, a, b, q, i); }
    }
  }

  /** The first closing text behind a content is the one that closes it exactly if the content holds none. */
  lemma {:induction false} SectionEnds(content: Text, q: Text, tail: Text)
    requires Closer(q)
    ensures FindText(content + q + tail, q, 0) == Some(|content|) <==> Free(content, q)
  {
    var s, n := content + q + tail, |content|;
    assert s[n..n + |q|] == q;
    FindTextIsFirst(s, q, 0, n);
    if Free(content, q) {
      forall i: nat | i < n
        ensures !StartsWith(s, q, i)
      {
        if StartsWith(s, q, i) {
          assert s[0..n] == content;
          if i + |q| <= n {
            InPart(s, 0, content, q, i);
          } else {
            CharsAt(s, q, i);
          }
        }
      }
    } else {
      var i: nat :| StartsWith(content, q, i);
      assert s[i..i + |q|] == content[i..i + |q|];
      assert StartsWith(s, q, i);
    }
  }

  lemma {:induction false} FindTextIsFirst(s: Text, q: Text, from: nat, at: nat)
    requires from <= at && StartsWith(s, q, at)
    ensures FindText(s, q, from) == Some(at) <==> forall i: nat :: from <= i < at ==> !StartsWith(s, q, i)
    decreases at - from
  {
    if from < at && !StartsWith(s, q, from) { FindTextIsFirst(s, q, from + 1, at); }
  }

  /** The content of a section, cut off at the first closing text, holds none. */
  lemma {:induction false} ContentIsFree(document: Text, q: Text, inside: nat)
    requires q != [] && inside <= |document|
    ensures var close := FindText(document, q, inside);
            Free(document[inside..if close.Some? then close.value else |document|], q)
    decreases |document| - inside
  {
    var close := FindText(document, q, inside);
    var end := if close.Some? then close.value else |document|;
    forall i: nat
      ensures !StartsWith(document[inside..end], q, i)
    {
      if StartsWith(document[inside..end], q, i) {
        Within(document, inside, end, q, i);
        FindTextBefore(document, q, inside, inside + i);
      }
    }
  }

  lemma {:induction false} FindTextBefore(s: Text, q: Text, from: nat, at: nat)
    requires from <= at && StartsWith(s, q, at)
    ensures var found := FindText(s, q, from); found.Some? && found.value <= at
    decreases at - from
  {
    if from < at && !StartsWith(s, q, from) { FindTextBefore(s, q, from + 1, at); }
  }

  // ---------------------------------------------------------------- safe masks in scripts and styles

  lemma {:induction false} NoEndTagIs(s: Text)
    ensures Free(s, END_TAG_OPEN) <==> NoEndTag(s)
  {
    if Free(s, END_TAG_OPEN) {
      forall i: nat | i + 1 < |s|
        ensures !(s[i] == LT && s[i + 1] == SLASH)
      {
        assert !StartsWith(s, END_TAG_OPEN, i);
        assert s[i..i + 2] == [s[i], s[i + 1]];
      }
    } else {
      var i: nat :| StartsWith(s, END_TAG_OPEN, i);
      CharsAt(s, END_TAG_OPEN, i);
      assert END_TAG_OPEN[0] == s[i + 0] && END_TAG_OPEN[1] == s[i + 1];
    }
  }

  /** How matching goes on behind a first character. */
  lemma {:induction false} GoesCons(c: Closing, h: point, t: Text, j: nat)
    requires j <= |c.Head()|
    ensures var taken := if j < |c.Head()| then c.Takes(j, h) else h != GT && c.space(h);
            var next := if j < |c.Head()| then j + 1 else j;
            && (Goes(c, [h] + t, 0, j).Some? <==> (j == |c.Head()| && h == GT) || (taken && Goes(c, t, 0, next).Some?))
            && StateAfter(c, [h] + t, 0, j) == if taken then StateAfter(c, t, 0, next) else None
  {
    var s := [h] + t;
    GoesSplit(c, [h], t, 0, j);
    assert s[0] == h && s[1..] == t;
    if j < |c.Head()| {
      if c.Takes(j, h) { StateShift(c, [h], t, 0, j + 1); }
    } else if h != GT && c.space(h) {
      StateShift(c, [h], t, 0, j);
    }
  }

  lemma {:induction false} StateShift(c: Closing, a: Text, s: Text, i: nat, j: nat)
    requires j <= |c.Head()|
    ensures StateAfter(c, a + s, |a| + i, j) == StateAfter(c, s, i, j)
    decreases |s| - i
  {
    if i < |s| {
      assert (a + s)[|a| + i] == s[i];
      if j < |c.Head()| {
        if c.Takes(j, s[i]) { StateShift(c, a, s, i + 1, j + 1); }
      } else {
        StateShift(c, a, s, i + 1, j);
      }
    }
  }

  /** Breaking up a pattern that begins with a mark changes nothing about matching the rest of a closing tag. */
  lemma {:induction false} BreakGoes(c: Closing, s: Text, pattern: Text, x: point, j: nat)
    requires c.Valid() && |pattern| >= 2 && Mark(pattern[0]) && pattern[0] != GT && 1 <= j <= |c.Head()|
    ensures var out := ReplaceAll(s, pattern, Broken(pattern, x));
            && (Goes(c, out, 0, j).Some? <==> Goes(c, s, 0, j).Some?)
            && StateAfter(c, out, 0, j) == StateAfter(c, s, 0, j)
    decreases |s|
  {
    var out := ReplaceAll(s, pattern, Broken(pattern, x));
    hide ReplaceAll, Broken, Goes, StateAfter;
    if |s| < |pattern| {
      Short(s, pattern, x);
    } else {
      ReplaceNext(s, pattern, x);
      assert s == [s[0]] + s[1..];
      GoesCons(c, s[0], s[1..], j);
      if s[..|pattern|] == pattern {
        MarkStops(c, s[0], j);
        EndsKept(s, pattern, x);
        assert out == [out[0]] + out[1..];
        GoesCons(c, out[0], out[1..], j);
      } else {
        var rest := ReplaceAll(s[1..], pattern, Broken(pattern, x));
        GoesCons(c, s[0], rest, j);
        BreakGoes(c, s[1..], pattern, x, if j < |c.Head()| then j + 1 else j);
      }
    }
  }

  lemma {:induction false} MarkStops(c: Closing, h: point, j: nat)
    requires c.Valid() && Mark(h) && h != GT && 1 <= j <= |c.Head()|
    ensures if j < |c.Head()| then !c.Takes(j, h) else !c.space(h)
  {
  }

  /** Making a mask safe leaves whether it blends into a closing tag. */
  lemma {:induction false} RawSafeBlends(c: Closing, mask: Text)
    requires c.Valid()
    ensures Blends(c, RawSafe(mask)) <==> Blends(c, mask)
  {
    var a := ReplaceAll(mask, END_TAG_OPEN, Broken(END_TAG_OPEN, BACKSLASH));
    var b := ReplaceAll(a, COMMENT_CLOSE, Broken(COMMENT_CLOSE, SPACE));
    BreakBlends(c, mask, END_TAG_OPEN, BACKSLASH);
    BreakBlends(c, a, COMMENT_CLOSE, SPACE);
    BreakBlends(c, b, CDATA_CLOSE, SPACE);
  }

  lemma {:induction false} BreakBlends(c: Closing, s: Text, pattern: Text, x: point)
    requires c.Valid() && |pattern| >= 2 && Mark(pattern[0]) && pattern[0] != GT
    ensures Blends(c, ReplaceAll(s, pattern, Broken(pattern, x))) <==> Blends(c, s)
  {
    var out := ReplaceAll(s, pattern, Broken(pattern, x));
    EndsKept(s, pattern, x);
    hide ReplaceAll, Broken, Goes, StateAfter;
    forall j: nat | 1 <= j <= |c.Head()|
      ensures Goes(c, out, 0, j).Some? <==> Goes(c, s, 0, j).Some?
      ensures StateAfter(c, out, 0, j) == StateAfter(c, s, 0, j)
    {
      BreakGoes(c, s, pattern, x, j);
    }
  }

  /** In a script or style `_raw_safe` keeps a mask from closing it, whatever is around it, exactly if the mask does not
      blend into the closing tag. */
  lemma {:induction false} ScriptSafeExactly(c: Closing, mask: Text)
    requires c.Valid()
    ensures !Blends(c, mask) <==>
            forall a: Text, b: Text :: Unclosed(c, a) && Unclosed(c, b) ==> Unclosed(c, a + RawSafe(mask) + b)
  {
    hide *;
    RawSafeClosesNothing(mask);
    NoEndTagIs(RawSafe(mask));
    RawSafeBlends(c, mask);
    BlendsExactly(c, RawSafe(mask));
  }

  /** The mask `script` between `</` and `>` closes a script. */
  lemma {:induction false} MaskClosesScript(c: Closing)
    requires c.Valid()
    ensures Blends(c, c.name) && Unclosed(c, END_TAG_OPEN) && Unclosed(c, [GT]) && !Unclosed(c, END_TAG_OPEN + c.name + [GT])
  {
    TailGoes(c, 0, 0);
    assert c.Head()[0..] + [GT] == END_TAG_OPEN + c.name + [GT];
    UnclosedWithout(c, END_TAG_OPEN);
    UnclosedWithout(c, [GT]);
    HeadGoes(c, |c.Head()|, 0);
    var head := c.Head();
    assert head[..|head|] == END_TAG_OPEN + c.name;
    StateShift(c, END_TAG_OPEN, c.name, 0, 2);
    HeadGoes(c, |head|, 2);
    assert StateAfter(c, c.name, 0, 2).Some?;
  }
}
