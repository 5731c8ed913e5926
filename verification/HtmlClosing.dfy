/** The closing tag of a script or style (files.py `_html_segments`): `</`, the name in any case, white space, `>`. */
module HtmlClosing {
  import opened Base
  import opened HtmlScan

  const DASH: point := 45
  const CLOSE_BRACKET: point := 93

  /** The name to close; `same` is equality up to case and `space` white space, as the regular expression has them. */
  datatype Closing = Closing(name: Text, same: (point, point) -> bool, space: point -> bool) {
    /** A name is made of letters. */
    ghost predicate Valid() {
      && name != [] && (forall c :: same(c, c))
      && (forall c :: Mark(c) ==> !space(c))
      && (forall i, c :: 0 <= i < |name| && Mark(c) ==> !same(name[i], c))
    }

    /** What comes before the white space. */
    function Head(): Text { [LT, SLASH] + name }

    /** `ch` may follow the first `j` characters of the head. */
    predicate Takes(j: nat, ch: point)
      requires j < |Head()|
    {
      if j < 2 then ch == Head()[j] else same(Head()[j], ch)
    }
  }

  predicate Mark(c: point) { c == LT || c == GT || c == DASH || c == CLOSE_BRACKET }

  /** With `j` characters of the head matched: where the closing tag ends, if it goes on at `i`. */
  function Goes(c: Closing, s: Text, i: nat, j: nat): (end: Option<nat>)
    requires j <= |c.Head()|
    ensures end.Some? ==> i < end.value <= |s|
    decreases |s| - i
  {
    if i >= |s| then None
    else if j < |c.Head()| then (if c.Takes(j, s[i]) then Goes(c, s, i + 1, j + 1) else None)
    else if s[i] == GT then Some(i + 1)
    else if c.space(s[i]) then Goes(c, s, i + 1, j)
    else None
  }

  /** The first closing tag from `from` on: its start and end. */
  function FindClosing(c: Closing, s: Text, from: nat): (at: Option<(nat, nat)>)
    ensures at.Some? ==> from <= at.value.0 < at.value.1 <= |s| && Goes(c, s, at.value.0, 0) == Some(at.value.1)
    decreases |s| - from
  {
    if from >= |s| then None
    else match Goes(c, s, from, 0)
      case Some(end) => Some((from, end))
      case None => FindClosing(c, s, from + 1)
  }

  /** There is no closing tag in `s`. */
  ghost predicate Unclosed(c: Closing, s: Text) {
    forall i: nat :: Goes(c, s, i, 0).None?
  }

  lemma {:induction false} FindClosingBefore(c: Closing, s: Text, from: nat, i: nat)
    requires from <= i && Goes(c, s, i, 0).Some?
    ensures var at := FindClosing(c, s, from); at.Some? && at.value.0 <= i
    decreases i - from
  {
    if from < i && Goes(c, s, from, 0).None? { FindClosingBefore(c, s, from + 1, i); }
  }

  // ---------------------------------------------------------------- texts put together

  /** How much is matched behind the end of `s`, if the matching is not over before. */
  function StateAfter(c: Closing, s: Text, i: nat, j: nat): (r: Option<nat>)
    requires j <= |c.Head()|
    ensures r.Some? ==> j <= r.value <= |c.Head()| && (i < |s| && j == 0 ==> r.value > 0)
    decreases |s| - i
  {
    if i >= |s| then Some(j)
    else if j < |c.Head()| then (if c.Takes(j, s[i]) then StateAfter(c, s, i + 1, j + 1) else None)
    else if s[i] != GT && c.space(s[i]) then StateAfter(c, s, i + 1, j)
    else None
  }

  lemma {:induction false} GoesShift(c: Closing, a: Text, s: Text, i: nat, j: nat)
    requires j <= |c.Head()|
    ensures Goes(c, a + s, |a| + i, j) == match Goes(c, s, i, j) case None => None case Some(end) => Some(|a| + end)
    decreases |s| - i
  {
    if i < |s| {
      assert (a + s)[|a| + i] == s[i];
      if j < |c.Head()| {
        if c.Takes(j, s[i]) { GoesShift(c, a, s, i + 1, j + 1); }
      } else {
        GoesShift(c, a, s, i + 1, j);
      }
    }
  }

  /** A closing tag of two texts together ends in the first, or goes on in the second. */
  lemma {:induction false} GoesSplit(c: Closing, a: Text, s: Text, i: nat, j: nat)
    requires j <= |c.Head()| && i <= |a|
    ensures Goes(c, a + s, i, j).Some? <==>
            Goes(c, a, i, j).Some? || (StateAfter(c, a, i, j).Some? && Goes(c, s, 0, StateAfter(c, a, i, j).value).Some?)
    decreases |a| - i
  {
    if i == |a| {
      GoesShift(c, a, s, 0, j);
    } else {
      assert (a + s)[i] == a[i];
      if j < |c.Head()| {
        if c.Takes(j, a[i]) { GoesSplit(c, a, s, i + 1, j + 1); }
      } else if a[i] != GT && c.space(a[i]) {
        GoesSplit(c, a, s, i + 1, j);
      }
    }
  }

  /** A part of a text without a closing tag has none. */
  lemma {:induction false} PartUnclosed(c: Closing, s: Text, a: nat, b: nat)
    requires a <= b <= |s| && Unclosed(c, s)
    ensures Unclosed(c, s[a..b])
  {
    forall i: nat
      ensures Goes(c, s[a..b], i, 0).None?
    {
      if Goes(c, s[a..b], i, 0).Some? { WithinGoes(c, s, a, b, i); }
    }
  }

  lemma {:induction false} WithinGoes(c: Closing, s: Text, a: nat, b: nat, i: nat)
    requires a <= b <= |s| && Goes(c, s[a..b], i, 0).Some?
    ensures Goes(c, s, a + i, 0).Some? && a + i < b
  {
    assert s[a..] == s[a..b] + s[b..] && s == s[..a] + s[a..];
    GoesSplit(c, s[a..b], s[b..], i, 0);
    GoesShift(c, s[..a], s[a..], i, 0);
  }

  /** The content of an element, cut off at the first closing tag, holds none. */
  lemma {:induction false} ContentUnclosed(c: Closing, s: Text, from: nat)
    requires from <= |s|
    ensures var close := FindClosing(c, s, from); Unclosed(c, s[from..if close.Some? then close.value.0 else |s|])
  {
    var close := FindClosing(c, s, from);
    var end := if close.Some? then close.value.0 else |s|;
    forall i: nat
      ensures Goes(c, s[from..end], i, 0).None?
    {
      if Goes(c, s[from..end], i, 0).Some? {
        WithinGoes(c, s, from, end, i);
        FindClosingBefore(c, s, from, from + i);
      }
    }
  }

  // ---------------------------------------------------------------- what a mask can bring about

  /** The mask can be a part of a closing tag that does not begin in it, or is nothing, or ends like the beginning of one. */
  ghost predicate Blends(c: Closing, mask: Text) {
    || mask == [] || mask[|mask| - 1] == LT
    || exists j :: 1 <= j <= |c.Head()| && (Goes(c, mask, 0, j).Some? || StateAfter(c, mask, 0, j).Some?)
  }

  /** There is no `</` in the text. */
  predicate NoEndTag(s: Text) {
    forall i :: 0 <= i && i + 1 < |s| ==> !(s[i] == LT && s[i + 1] == SLASH)
  }

  /** Between texts without a closing tag, a mask without `</` that does not blend in brings none about. */
  lemma {:induction false} NotBlendingIsSafe(c: Closing, a: Text, m: Text, b: Text)
    requires Unclosed(c, a) && Unclosed(c, b) && NoEndTag(m) && !Blends(c, m)
    ensures Unclosed(c, a + m + b)
  {
    forall i: nat
      ensures Goes(c, a + m + b, i, 0).None?
    {
      if Goes(c, a + m + b, i, 0).Some? { SomewhereGoes(c, a, m, b, i); }
    }
  }

  lemma {:induction false} SomewhereGoes(c: Closing, a: Text, m: Text, b: Text, i: nat)
    requires Goes(c, a + m + b, i, 0).Some? && NoEndTag(m)
    ensures !Unclosed(c, a) || !Unclosed(c, b) || Blends(c, m)
  {
    Assoc(a, m, b);
    if i < |a| {
      GoesSplit(c, a, m + b, i, 0);
      if Goes(c, a, i, 0).None? {
        var j := StateAfter(c, a, i, 0).value;
        GoesSplit(c, m, b, 0, j);
        assert Goes(c, m, 0, j).Some? || StateAfter(c, m, 0, j).Some?;
      }
    } else {
      var k: nat := i - |a|;
      GoesShift(c, a, m + b, k, 0);
      if k >= |m| {
        GoesShift(c, m, b, k - |m|, 0);
      } else {
        assert forall x :: k <= x < |m| ==> (m + b)[x] == m[x];
        BeginsWithHead(c, m + b, k);
      }
    }
  }

  lemma {:induction false} BeginsWithHead(c: Closing, s: Text, i: nat)
    requires Goes(c, s, i, 0).Some?
    ensures i + 1 < |s| && s[i] == LT && s[i + 1] == SLASH
  {
  }

  lemma {:induction false} NeedsMarks(c: Closing, s: Text, i: nat, j: nat)
    requires j <= |c.Head()| && Goes(c, s, i, j).Some?
    ensures i < |s| && (exists k: nat :: i <= k < |s| && s[k] == GT) && (j == 0 ==> s[i] == LT)
    decreases |s| - i
  {
    if j < |c.Head()| {
      NeedsMarks(c, s, i + 1, j + 1);
    } else if s[i] != GT {
      NeedsMarks(c, s, i + 1, j);
    }
  }

  lemma {:induction false} UnclosedWithout(c: Closing, s: Text)
    requires LT !in s || GT !in s
    ensures Unclosed(c, s)
  {
    forall i: nat
      ensures Goes(c, s, i, 0).None?
    {
      if Goes(c, s, i, 0).Some? { NeedsMarks(c, s, i, 0); }
    }
  }

  /** The first characters of the head are matched by themselves, and so are the last ones with the `>`. */
  lemma {:induction false} HeadGoes(c: Closing, j: nat, i: nat)
    requires c.Valid() && i <= j <= |c.Head()|
    ensures StateAfter(c, c.Head()[..j], i, i) == Some(j)
    decreases j - i
  {
    if i < j { HeadGoes(c, j, i + 1); }
  }

  lemma {:induction false} TailGoes(c: Closing, j: nat, i: nat)
    requires c.Valid() && j + i <= |c.Head()|
    ensures Goes(c, c.Head()[j..] + [GT], i, j + i).Some?
    decreases |c.Head()| - (j + i)
  {
    var s := c.Head()[j..] + [GT];
    if j + i < |c.Head()| {
      assert s[i] == c.Head()[j + i];
      TailGoes(c, j, i + 1);
    }
  }

  /** Surroundings without a closing tag in which a mask that blends in brings one about. */
  lemma {:induction false} ClosingAround(c: Closing, m: Text) returns (a: Text, b: Text)
    requires c.Valid() && Blends(c, m)
    ensures Unclosed(c, a) && Unclosed(c, b) && !Unclosed(c, a + m + b)
  {
    var head := c.Head();
    if m == [] || m[|m| - 1] == LT {
      a, b := if m == [] then [LT] else [], head[1..] + [GT];
      TailGoes(c, 1, 0);
      LateHead(c, 1);
      UnclosedWithout(c, a);
      UnclosedWithout(c, b);
      var front := if m == [] then [] else m[..|m| - 1];
      assert a + m + b == front + ([LT] + b);
      assert ([LT] + b)[0] == LT && c.Takes(0, LT);
      GoesShift(c, [LT], b, 0, 1);
      GoesShift(c, front, [LT] + b, 0, 0);
      assert Goes(c, a + m + b, |front|, 0).Some?;
    } else {
      var j :| 1 <= j <= |head| && (Goes(c, m, 0, j).Some? || StateAfter(c, m, 0, j).Some?);
      a := head[..j];
      HeadGoes(c, j, 0);
      EarlyHead(c, j);
      UnclosedWithout(c, a);
      if Goes(c, m, 0, j).Some? {
        b := [];
      } else {
        var k := StateAfter(c, m, 0, j).value;
        b := head[k..] + [GT];
        TailGoes(c, k, 0);
        LateHead(c, k);
      }
      UnclosedWithout(c, b);
      GoesSplit(c, m, b, 0, j);
      GoesSplit(c, a, m + b, 0, 0);
      Assoc(a, m, b);
      assert Goes(c, a + m + b, 0, 0).Some?;
    }
  }

  lemma {:induction false} EarlyHead(c: Closing, j: nat)
    requires c.Valid() && j <= |c.Head()|
    ensures GT !in c.Head()[..j]
  {
    forall i | 0 <= i < |c.name|
      ensures c.name[i] != GT
    {
      assert Mark(GT) && !c.same(c.name[i], GT) && c.same(c.name[i], c.name[i]);
    }
  }

  lemma {:induction false} LateHead(c: Closing, j: nat)
    requires c.Valid() && 1 <= j <= |c.Head()|
    ensures LT !in c.Head()[j..] + [GT]
  {
    forall i | 0 <= i < |c.name|
      ensures c.name[i] != LT
    {
      assert Mark(LT) && !c.same(c.name[i], LT) && c.same(c.name[i], c.name[i]);
    }
  }

  /** A mask without `</` closes in no surroundings exactly if it does not blend in. */
  lemma {:induction false} BlendsExactly(c: Closing, m: Text)
    requires c.Valid() && NoEndTag(m)
    ensures !Blends(c, m) <==> forall a: Text, b: Text :: Unclosed(c, a) && Unclosed(c, b) ==> Unclosed(c, a + m + b)
  {
    if !Blends(c, m) {
      forall a: Text, b: Text | Unclosed(c, a) && Unclosed(c, b)
        ensures Unclosed(c, a + m + b)
      {
        NotBlendingIsSafe(c, a, m, b);
      }
    } else {
      var a, b := ClosingAround(c, m);
    }
  }

  /** Masks that do not blend in leave a text without a closing tag, wherever they are put. */
  lemma {:induction false} ReplaceStaysUnclosed(c: Closing, s: Text, edits: seq<Edit<point>>, from: nat)
    requires Ordered(edits, from, |s|) && Unclosed(c, s)
    requires forall k :: 0 <= k < |edits| ==> NoEndTag(edits[k].mask) && !Blends(c, edits[k].mask)
    ensures Unclosed(c, Replace(s, edits, from))
    decreases |edits|
  {
    hide Unclosed, NoEndTag, Blends;
    OrderedBounds(edits, from, |s|);
    if edits == [] {
      PartUnclosed(c, s, from, |s|);
      assert s[from..] == s[from..|s|];
    } else {
      PartUnclosed(c, s, from, edits[0].start);
      ReplaceStaysUnclosed(c, s, edits[1..], edits[0].end);
      NotBlendingIsSafe(c, s[from..edits[0].start], edits[0].mask, Replace(s, edits[1..], edits[0].end));
    }
  }
}
