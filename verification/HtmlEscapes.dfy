/** What an escaped mask is, character by character (files.py `_raw_safe`, and `html.escape` without quotes). */
module HtmlEscapes {
  import opened Base
  import opened HtmlScan
  import opened HtmlSegments
  import opened HtmlParts
  import opened HtmlSafe

  // ---------------------------------------------------------------- html.escape

  ghost function Escaped(mask: Text): Text {
    if mask == [] then [] else EscapedChar(mask[0]) + Escaped(mask[1..])
  }

  ghost function EscapedChar(c: point): Text {
    if c == '&' as int then Codes("&amp;")
    else if c == '<' as int then Codes("&lt;")
    else if c == '>' as int then Codes("&gt;")
    else [c]
  }

  lemma {:induction false} ReplaceJoin(a: Text, b: Text, x: point, put: Text)
    ensures ReplaceAll(a + b, [x], put) == ReplaceAll(a, [x], put) + ReplaceAll(b, [x], put)
  {
    if a == [] {
      assert a + b == b;
    } else {
      assert (a + b)[..1] == [a[0]] == a[..1] && (a + b)[1..] == a[1..] + b;
      ReplaceJoin(a[1..], b, x, put);
    }
  }

  lemma {:induction false} EscapeJoin(a: Text, b: Text)
    ensures EscapeText(a + b) == EscapeText(a) + EscapeText(b)
  {
    hide ReplaceAll;
    var amp, lt, gt: Text := [AMPERSAND, 97, 109, 112, 59], [AMPERSAND, 108, 116, 59], [AMPERSAND, 103, 116, 59];
    ReplaceJoin(a, b, AMPERSAND, amp);
    var a', b' := ReplaceAll(a, [AMPERSAND], amp), ReplaceAll(b, [AMPERSAND], amp);
    ReplaceJoin(a', b', LT, lt);
    ReplaceJoin(ReplaceAll(a', [LT], lt), ReplaceAll(b', [LT], lt), GT, gt);
  }

  lemma {:induction false} KeepAll(s: Text, x: point, put: Text)
    requires x !in s
    ensures ReplaceAll(s, [x], put) == s
    decreases |s|
  {
    if s != [] {
      assert s[..1] == [s[0]];
      KeepAll(s[1..], x, put);
    }
  }

  lemma {:induction false} PutOne(x: point, put: Text)
    ensures ReplaceAll([x], [x], put) == put
  {
    assert [x][..1] == [x] && [x][1..] == [];
  }

  lemma {:induction false} EscapeOne(c: point)
    ensures EscapeText([c]) == EscapedChar(c)
  {
    hide ReplaceAll;
    var amp, lt, gt: Text := [AMPERSAND, 97, 109, 112, 59], [AMPERSAND, 108, 116, 59], [AMPERSAND, 103, 116, 59];
    assert amp == Codes("&amp;") && lt == Codes("&lt;") && gt == Codes("&gt;");
    if c == AMPERSAND {
      PutOne(AMPERSAND, amp);
      KeepAll(amp, LT, lt);
      KeepAll(amp, GT, gt);
    } else {
      KeepAll([c], AMPERSAND, amp);
      if c == LT {
        PutOne(LT, lt);
        KeepAll(lt, GT, gt);
      } else {
        KeepAll([c], LT, lt);
        if c == GT { PutOne(GT, gt); } else { KeepAll([c], GT, gt); }
      }
    }
  }

  /** Three replacements one after the other escape every character once. */
  lemma {:induction false} EscapeIsCharwise(mask: Text)
    ensures EscapeText(mask) == Escaped(mask)
  {
    hide EscapeText, EscapedChar;
    if mask == [] {
      EscapeNothing();
    } else {
      assert mask == [mask[0]] + mask[1..];
      EscapeJoin([mask[0]], mask[1..]);
      EscapeOne(mask[0]);
      EscapeIsCharwise(mask[1..]);
    }
  }

  lemma {:induction false} EscapeNothing()
    ensures EscapeText([]) == []
  {
  }

  // ---------------------------------------------------------------- _raw_safe

  /** From place `i` on, `c` put in front of the last character of each `pattern`. */
  ghost function Parted(s: Text, pattern: Text, c: point, i: nat): Text
    requires i <= |s|
    decreases |s| - i
  {
    if i == |s| then []
    else (if EndsHere(s, pattern, i) then [c, s[i]] else [s[i]]) + Parted(s, pattern, c, i + 1)
  }

  /** An occurrence of the pattern ends with the character at `i`. */
  ghost predicate EndsHere(s: Text, pattern: Text, i: nat)
    requires i < |s|
  {
    |pattern| <= i + 1 && StartsWith(s, pattern, i + 1 - |pattern|)
  }

  /** A pattern of at least two characters whose last one occurs once. */
  predicate Pointed(pattern: Text) {
    |pattern| >= 2 && forall k :: 0 <= k < |pattern| - 1 ==> pattern[k] != pattern[|pattern| - 1]
  }

  /** No occurrence reaches from before `i` to `i` or beyond. */
  ghost predicate Fresh(s: Text, pattern: Text, i: nat)
  {
    forall k: nat :: k < i < k + |pattern| ==> !StartsWith(s, pattern, k)
  }

  /** Putting `c` into every occurrence, from left to right, puts it in front of the last character of each. */
  lemma {:induction false} BreakIsParted(s: Text, pattern: Text, c: point, i: nat)
    requires Pointed(pattern) && i <= |s| && Fresh(s, pattern, i)
    ensures ReplaceAll(s[i..], pattern, Broken(pattern, c)) == Parted(s, pattern, c, i)
    decreases |s| - i
  {
    hide *;
    PointedLong(pattern);
    BreakStep(s, pattern, c, i);
    var n := |pattern|;
    if StartsWith(s, pattern, i) {
      FreshBehind(s, pattern, i);
      BreakIsParted(s, pattern, c, i + n);
      PartedPlain(s, pattern, c, i, i + n - 1);
      PartedLast(s, pattern, c, i);
    } else if |s| - i < n {
      FreshToEnd(s, pattern, i);
      PartedPlain(s, pattern, c, i, |s|);
      PartedNone(s, pattern, c);
      assert s[i..|s|] == s[i..];
    } else {
      FreshNext(s, pattern, i);
      BreakIsParted(s, pattern, c, i + 1);
      PartedPlain(s, pattern, c, i, i + 1);
      assert s[i..i + 1] == [s[i]];
    }
  }

  lemma {:induction false} PointedLong(pattern: Text)
    requires Pointed(pattern)
    ensures |pattern| >= 2
  {
  }

  lemma {:induction false} BreakStep(s: Text, pattern: Text, c: point, i: nat)
    requires |pattern| >= 2 && i <= |s|
    ensures StartsWith(s, pattern, i) ==>
              && i + |pattern| <= |s|
              && ReplaceAll(s[i..], pattern, Broken(pattern, c))
                   == Broken(pattern, c) + ReplaceAll(s[i + |pattern|..], pattern, Broken(pattern, c))
    ensures !StartsWith(s, pattern, i) ==>
              ReplaceAll(s[i..], pattern, Broken(pattern, c))
                == if |s| - i < |pattern| then s[i..] else [s[i]] + ReplaceAll(s[i + 1..], pattern, Broken(pattern, c))
  {
    hide Broken;
    if |s| - i >= |pattern| {
      assert s[i..][..|pattern|] == s[i..i + |pattern|] && s[i..][|pattern|..] == s[i + |pattern|..];
      assert s[i..][1..] == s[i + 1..];
    }
  }

  lemma {:induction false} PartedLast(s: Text, pattern: Text, c: point, i: nat)
    requires |pattern| >= 2 && StartsWith(s, pattern, i)
    ensures i + |pattern| <= |s|
    ensures var n := |pattern|;
            s[i..i + n - 1] + Parted(s, pattern, c, i + n - 1) == Broken(pattern, c) + Parted(s, pattern, c, i + n)
  {
    var n := |pattern|;
    assert EndsHere(s, pattern, i + n - 1);
    var last := s[i + n - 1];
    assert s[i..i + n][..n - 1] == s[i..i + n - 1] && s[i..i + n][n - 1] == last;
    var rest := Parted(s, pattern, c, i + n);
    Assoc(pattern[..n - 1], [c, last], rest);
    assert pattern[..n - 1] + [c] + [last] == pattern[..n - 1] + [c, last];
  }

  lemma {:induction false} PartedNone(s: Text, pattern: Text, c: point)
    ensures Parted(s, pattern, c, |s|) == []
  {
  }

  lemma {:induction false} FreshBehind(s: Text, pattern: Text, i: nat)
    requires Pointed(pattern) && Fresh(s, pattern, i) && StartsWith(s, pattern, i)
    ensures Fresh(s, pattern, i + |pattern|)
    ensures forall k :: i <= k < i + |pattern| - 1 && k < |s| ==> !EndsHere(s, pattern, k)
  {
    forall k: nat | k < i + |pattern| < k + |pattern|
      ensures !StartsWith(s, pattern, k)
    {
      if i < k {
        var last := i + |pattern| - 1;
        StartsChar(s, pattern, i, last);
        StartsChar(s, pattern, k, last);
      }
    }
  }

  lemma {:induction false} StartsChar(s: Text, q: Text, k: nat, x: nat)
    requires k <= x < k + |q|
    ensures StartsWith(s, q, k) ==> x < |s| && s[x] == q[x - k]
  {
    if StartsWith(s, q, k) { assert s[x] == s[k..k + |q|][x - k]; }
  }

  lemma {:induction false} FreshToEnd(s: Text, pattern: Text, i: nat)
    requires |pattern| >= 2 && Fresh(s, pattern, i) && i <= |s| < i + |pattern|
    ensures forall k :: i <= k < |s| ==> !EndsHere(s, pattern, k)
  {
  }

  lemma {:induction false} FreshNext(s: Text, pattern: Text, i: nat)
    requires |pattern| >= 2 && Fresh(s, pattern, i) && !StartsWith(s, pattern, i) && i < |s|
    ensures Fresh(s, pattern, i + 1) && forall k :: i <= k < i + 1 ==> !EndsHere(s, pattern, k)
  {
  }

  /** A stretch in which no occurrence ends. */
  lemma {:induction false} PartedPlain(s: Text, pattern: Text, c: point, i: nat, upto: nat)
    requires i <= upto <= |s| && forall k :: i <= k < upto ==> !EndsHere(s, pattern, k)
    ensures Parted(s, pattern, c, i) == s[i..upto] + Parted(s, pattern, c, upto)
    decreases upto - i
  {
    hide *;
    if i < upto {
      PartedStep(s, pattern, c, i);
      PartedPlain(s, pattern, c, i + 1, upto);
      Assoc([s[i]], s[i + 1..upto], Parted(s, pattern, c, upto));
      assert s[i..upto] == [s[i]] + s[i + 1..upto];
    } else {
      assert s[i..upto] + Parted(s, pattern, c, upto) == Parted(s, pattern, c, upto);
    }
  }

  lemma {:induction false} PartedStep(s: Text, pattern: Text, c: point, i: nat)
    requires i < |s|
    ensures Parted(s, pattern, c, i)
         == (if EndsHere(s, pattern, i) then [c, s[i]] else [s[i]]) + Parted(s, pattern, c, i + 1)
  {
    hide EndsHere;
  }

  /** `c` put in front of the last character of each `pattern`. */
  ghost function Split(s: Text, pattern: string, c: point): Text
    requires forall i :: 0 <= i < |pattern| ==> pattern[i] as int < 128
  {
    Parted(s, Codes(pattern), c, 0)
  }

  lemma {:induction false} BreakWhole(s: Text, pattern: Text, c: point)
    requires Pointed(pattern)
    ensures ReplaceAll(s, pattern, Broken(pattern, c)) == Parted(s, pattern, c, 0)
  {
    hide Parted, Broken, ReplaceAll, Pointed, StartsWith;
    BreakIsParted(s, pattern, c, 0);
    assert s[0..] == s;
  }

  /** A safe mask is the mask with a backslash inside every `</` and a space inside every `-->` and `]]>`. */
  lemma {:induction false} RawSafeSays(mask: Text)
    ensures RawSafe(mask) == Split(Split(Split(mask, "</", '\\' as int), "-->", ' ' as int), "]]>", ' ' as int)
  {
    hide ReplaceAll, Parted, Broken;
    MarksSay();
    assert Codes("</") == END_TAG_OPEN;
    BreakWhole(mask, END_TAG_OPEN, BACKSLASH);
    BreakWhole(Parted(mask, END_TAG_OPEN, BACKSLASH, 0), COMMENT_CLOSE, SPACE);
    BreakWhole(Parted(Parted(mask, END_TAG_OPEN, BACKSLASH, 0), COMMENT_CLOSE, SPACE, 0), CDATA_CLOSE, SPACE);
  }
}
