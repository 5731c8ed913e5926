/** Masking rules (rules.py): what one rule puts in place of a match, and the plain rule-by-rule rewrite. */
module Rules {
  import opened Base

  const ASTERISK: point := 42

  /** The default replacement; a broken template falls back to it. */
  const DEFAULT_MASK: Text := [ASTERISK, ASTERISK, ASTERISK, ASTERISK]

  /** `match.span()`: a half-open range of the searched text. */
  datatype Match = Match(start: nat, end: nat)

  datatype Mode = Full | Partial

  /** A compiled policy. The regular-expression engine stays abstract:
      `find` is `pattern.finditer`, `expand` is `match.expand(mask)` with None for a broken template,
      `alnum` is `str.isalnum` on one character. */
  datatype Rule = Rule(
    find: Text -> seq<Match>,
    expand: (Text, Match) -> Option<Text>,
    alnum: point -> bool,
    mode: Mode,
    maskChar: Text,
    keepPrefix: int,
    keepSuffix: int,
    preserveFormat: bool)
  {
    /** What `re` promises of `finditer`: matches come in order and do not overlap (they may be empty). */
    ghost predicate Valid() {
      forall text: Text :: MatchesIn(find(text), 0, |text|)
    }

    /** The text put in place of a match. An empty match hides nothing, so it is replaced by nothing. */
    function Replacement(text: Text, m: Match): Text
      requires m.start <= m.end <= |text|
    {
      if m.end == m.start then []
      else if mode == Partial then
        PartialMask(text[m.start..m.end], alnum, maskChar, keepPrefix, keepSuffix, preserveFormat)
      else match expand(text, m)
        case Some(expanded) => expanded
        case None => DEFAULT_MASK
    }
  }

  ghost predicate MatchesIn(ms: seq<Match>, from: nat, upto: nat) {
    if ms == [] then from <= upto
    else from <= ms[0].start <= ms[0].end && MatchesIn(ms[1..], ms[0].end, upto)
  }

  function Max0(x: int): nat { if x < 0 then 0 else x }

  /** The stretch of a match of length `n` that partial masking may hide. */
  function HiddenRange(n: nat, keepPrefix: int, keepSuffix: int): (range: (nat, nat))
    ensures range.0 <= range.1 <= n
  {
    if Max0(keepPrefix) + Max0(keepSuffix) >= n then (0, n) else (Max0(keepPrefix), n - Max0(keepSuffix))
  }

  function PartialMask(matched: Text, alnum: point -> bool, maskChar: Text,
                       keepPrefix: int, keepSuffix: int, preserveFormat: bool): (masked: Text)
  {
    var ch := if maskChar == [] then ASTERISK else maskChar[0];
    var (lo, hi) := HiddenRange(|matched|, keepPrefix, keepSuffix);
    seq(|matched|, i requires 0 <= i < |matched| =>
      if i < lo || i >= hi || (preserveFormat && !alnum(matched[i])) then matched[i] else ch)
  }

  /** Partial masking is fail-closed. A character other than the mask character survives only as a preserved
      separator or inside a kept end, and the kept ends never make up the whole match. */
  lemma {:induction false} PartialMaskFailsClosed(matched: Text, alnum: point -> bool, maskChar: Text,
                               keepPrefix: int, keepSuffix: int, preserveFormat: bool)
    ensures var masked := PartialMask(matched, alnum, maskChar, keepPrefix, keepSuffix, preserveFormat);
            var ch := if maskChar == [] then ASTERISK else maskChar[0];
            && |masked| == |matched|
            && (forall i :: 0 <= i < |matched| && masked[i] != ch ==>
                  masked[i] == matched[i]
                  && (i < keepPrefix || |matched| - i <= keepSuffix || (preserveFormat && !alnum(matched[i]))))
            && (matched != [] && (forall i :: 0 <= i < |matched| ==> alnum(matched[i])) ==>
                  exists i :: 0 <= i < |matched| && masked[i] == ch)
  {
    var masked := PartialMask(matched, alnum, maskChar, keepPrefix, keepSuffix, preserveFormat);
    var range := HiddenRange(|matched|, keepPrefix, keepSuffix);
    if matched != [] && (forall i :: 0 <= i < |matched| ==> alnum(matched[i])) {
      assert range.0 < range.1;
      assert masked[range.0] == (if maskChar == [] then ASTERISK else maskChar[0]);
    }
  }

  /** What partial masking keeps: both ends if something lies between them, and every separator where the format is
      preserved. Everything else becomes the mask character: the first one configured, or an asterisk. */
  lemma {:induction false} PartialMaskSays(matched: Text, alnum: point -> bool, maskChar: Text,
                                           keepPrefix: int, keepSuffix: int, preserveFormat: bool)
    ensures var masked := PartialMask(matched, alnum, maskChar, keepPrefix, keepSuffix, preserveFormat);
            var n, ch: point := |matched|, if maskChar == [] then 42 else maskChar[0];
            var p, s := if keepPrefix < 0 then 0 else keepPrefix, if keepSuffix < 0 then 0 else keepSuffix;
            && |masked| == n
            && (p + s < n ==> masked[..p] == matched[..p] && masked[n - s..] == matched[n - s..])
            && (forall i :: 0 <= i < n && preserveFormat && !alnum(matched[i]) ==> masked[i] == matched[i])
            && (forall i :: (0 <= i < n && (p + s >= n || p <= i < n - s) && (!preserveFormat || alnum(matched[i]))) ==>
                  masked[i] == ch)
  {
  }

  /** The documented example: four characters kept at the end, separators kept. */
  lemma {:induction false} PhoneNumber()
    ensures var digit := (c: point) => 48 <= c <= 57;
            PartialMask([48, 49, 48, 45, 49, 50, 51, 52, 45, 53, 54, 55, 56], digit, [42], 0, 4, true)
              == [42, 42, 42, 45, 42, 42, 42, 42, 45, 53, 54, 55, 56]
  {
    var digit := (c: point) => 48 <= c <= 57;
    var matched: Text := [48, 49, 48, 45, 49, 50, 51, 52, 45, 53, 54, 55, 56];
    PartialMaskSays(matched, digit, [42], 0, 4, true);
    var masked := PartialMask(matched, digit, [42], 0, 4, true);
    assert masked[9..] == matched[9..] == [53, 54, 55, 56];
    assert masked[..9] == [42, 42, 42, 45, 42, 42, 42, 42, 45];
    assert masked == masked[..9] + masked[9..];
  }

  /** What a rule puts in place of a match that hides something: in full mode the expanded template, and four asterisks if
      it is broken; in partial mode the match itself with its inside masked. */
  lemma {:induction false} ReplacementSays(rule: Rule, text: Text, m: Match)
    requires m.start <= m.end <= |text|
    ensures var out, matched := rule.Replacement(text, m), text[m.start..m.end];
            && (matched == [] ==> out == [])
            && (matched != [] && rule.mode == Full ==>
                  out == if rule.expand(text, m).Some? then rule.expand(text, m).value else [42, 42, 42, 42])
            && (matched != [] && rule.mode == Partial ==>
                  var n, ch: point := |matched|, if rule.maskChar == [] then 42 else rule.maskChar[0];
                  var p, s := if rule.keepPrefix < 0 then 0 else rule.keepPrefix,
                              if rule.keepSuffix < 0 then 0 else rule.keepSuffix;
                  && |out| == n
                  && forall i :: 0 <= i < n ==>
                       out[i] == if (p + s < n && (i < p || n - s <= i)) || (rule.preserveFormat && !rule.alnum(matched[i]))
                                 then matched[i] else ch)
  {
  }

  // ---------------------------------------------------------------- one rule over a text

  ghost predicate AllValid(rules: seq<Rule>) {
    forall r :: r in rules ==> r.Valid()
  }

  /** The matches that hide something. */
  function NonEmpty(ms: seq<Match>): seq<Match> {
    if ms == [] then []
    else if ms[0].end > ms[0].start then [ms[0]] + NonEmpty(ms[1..])
    else NonEmpty(ms[1..])
  }

  function Edits(rule: Rule, text: Text, ms: seq<Match>, from: nat): (edits: seq<Edit<point>>)
    requires MatchesIn(ms, from, |text|)
    ensures |edits| == |ms| && Ordered(edits, from, |text|)
    ensures forall k :: 0 <= k < |ms| ==>
              ms[k].start <= ms[k].end <= |text|
              && edits[k] == Edit(ms[k].start, ms[k].end, rule.Replacement(text, ms[k]))
  {
    if ms == [] then []
    else
      MatchesInBounds(ms, from, |text|);
      [Edit(ms[0].start, ms[0].end, rule.Replacement(text, ms[0]))] + Edits(rule, text, ms[1..], ms[0].end)
  }

  lemma {:induction false} MatchesInBounds(ms: seq<Match>, from: nat, upto: nat)
    requires MatchesIn(ms, from, upto)
    ensures from <= upto
    ensures forall m :: m in ms ==> from <= m.start <= m.end <= upto
  {
    if ms != [] {
      MatchesInBounds(ms[1..], ms[0].end, upto);
      assert forall m :: m in ms ==> m == ms[0] || m in ms[1..];
    }
  }

  lemma {:induction false} NonEmptyInOrder(ms: seq<Match>, from: nat, upto: nat)
    requires MatchesIn(ms, from, upto)
    ensures MatchesIn(NonEmpty(ms), from, upto)
    ensures forall m :: m in NonEmpty(ms) ==> m.start < m.end
  {
    if ms != [] {
      NonEmptyInOrder(ms[1..], ms[0].end, upto);
      if ms[0].end == ms[0].start {
        MatchesInWeaken(NonEmpty(ms[1..]), ms[0].end, from, upto);
      }
    }
  }

  lemma {:induction false} MatchesInWeaken(ms: seq<Match>, from: nat, earlier: nat, upto: nat)
    requires MatchesIn(ms, from, upto) && earlier <= from
    ensures MatchesIn(ms, earlier, upto)
  {
    MatchesInBounds(ms, from, upto);
  }

  /** `pattern.sub(replacement, text)`: every match is replaced, the empty ones by nothing. */
  function Substitute(rule: Rule, text: Text): Text
    requires rule.Valid()
  {
    Replace(text, Edits(rule, text, rule.find(text), 0), 0)
  }

  /** The edits one rule really makes. */
  function RuleEdits(rule: Rule, text: Text): (edits: seq<Edit<point>>)
    requires rule.Valid()
    ensures Ordered(edits, 0, |text|)
    ensures |edits| == |NonEmpty(rule.find(text))|
    ensures forall e :: e in edits ==> e.start < e.end
  {
    NonEmptyInOrder(rule.find(text), 0, |text|);
    Edits(rule, text, NonEmpty(rule.find(text)), 0)
  }

  /** Substituting over all matches is substituting over the non-empty ones. */
  lemma {:induction false} SubstituteSkipsEmpty(rule: Rule, text: Text, ms: seq<Match>, from: nat)
    requires MatchesIn(ms, from, |text|)
    ensures MatchesIn(NonEmpty(ms), from, |text|)
    ensures Replace(text, Edits(rule, text, ms, from), from)
         == Replace(text, Edits(rule, text, NonEmpty(ms), from), from)
    decreases |ms|
  {
    NonEmptyInOrder(ms, from, |text|);
    if ms != [] {
      MatchesInBounds(ms, from, |text|);
      SubstituteSkipsEmpty(rule, text, ms[1..], ms[0].end);
      var some := Edits(rule, text, NonEmpty(ms[1..]), ms[0].end);
      EditsUnfold(rule, text, ms, from);
      if ms[0].end > ms[0].start {
        assert NonEmpty(ms)[1..] == NonEmpty(ms[1..]);
        EditsUnfold(rule, text, NonEmpty(ms), from);
      } else {
        EditsFrom(rule, text, NonEmpty(ms[1..]), ms[0].end, from);
        ReplaceSkip(text, some, from, ms[0].start);
        assert text[from..ms[0].start] + [] == text[from..ms[0].start];
      }
    }
  }

  /** One step of carrying out the edits of a match list. */
  lemma {:induction false} EditsUnfold(rule: Rule, text: Text, ms: seq<Match>, from: nat)
    requires ms != [] && MatchesIn(ms, from, |text|)
    ensures from <= ms[0].start <= ms[0].end <= |text|
    ensures Replace(text, Edits(rule, text, ms, from), from)
         == text[from..ms[0].start] + rule.Replacement(text, ms[0])
            + Replace(text, Edits(rule, text, ms[1..], ms[0].end), ms[0].end)
  {
    MatchesInBounds(ms, from, |text|);
    assert Edits(rule, text, ms, from)[1..] == Edits(rule, text, ms[1..], ms[0].end);
  }

  /** The edits of a match list do not depend on where the search position stands. */
  lemma {:induction false} EditsFrom(rule: Rule, text: Text, ms: seq<Match>, from: nat, earlier: nat)
    requires MatchesIn(ms, from, |text|) && MatchesIn(ms, earlier, |text|)
    ensures Edits(rule, text, ms, from) == Edits(rule, text, ms, earlier)
  {
  }

  /** The text after one rule of `apply_rules`. */
  function Step(text: Text, rule: Rule): Text
    requires rule.Valid()
  {
    if NonEmpty(rule.find(text)) == [] then text else Substitute(rule, text)
  }

  lemma {:induction false} StepIsRuleEdits(text: Text, rule: Rule)
    requires rule.Valid()
    ensures Step(text, rule) == Replace(text, RuleEdits(rule, text), 0)
  {
    SubstituteSkipsEmpty(rule, text, rule.find(text), 0);
  }

  /** The text `apply_rules` ends with: each rule searches the text the earlier rules left. */
  function Masked(text: Text, rules: seq<Rule>): Text
    requires AllValid(rules)
  {
    if rules == [] then text
    else Step(Masked(text, rules[..|rules| - 1]), rules[|rules| - 1])
  }

  /** How many places the rules hit, each rule counting on the text it searches. */
  function Detected(text: Text, rules: seq<Rule>, mask: bool): nat
    requires AllValid(rules)
  {
    if rules == [] then 0
    else
      var before := if mask then Masked(text, rules[..|rules| - 1]) else text;
      Detected(text, rules[..|rules| - 1], mask) + |NonEmpty(rules[|rules| - 1].find(before))|
  }

  /** A rule that matches in one place replaces that place and nothing else. */
  lemma {:induction false} OneMatch(rule: Rule, before: Text, matched: Text, behind: Text)
    requires rule.Valid() && matched != []
    requires rule.find(before + matched + behind) == [Match(|before|, |before| + |matched|)]
    ensures Masked(before + matched + behind, [rule])
         == before + rule.Replacement(before + matched + behind, Match(|before|, |before| + |matched|)) + behind
    ensures Detected(before + matched + behind, [rule], true) == 1
  {
    var text, m := before + matched + behind, Match(|before|, |before| + |matched|);
    assert [rule][..0] == [] && [m][1..] == [];
    assert NonEmpty([m]) == [m] + NonEmpty([]) == [m];
    EditsUnfold(rule, text, [m], 0);
    assert text[0..|before|] == before && text[|before| + |matched|..] == behind;
  }

  /** The hits of each rule, on the text it searches. */
  function Hits(text: Text, rules: seq<Rule>, mask: bool): (counts: seq<nat>)
    requires AllValid(rules)
    ensures |counts| == |rules|
    ensures forall k :: 0 <= k < |rules| ==>
              counts[k] == |NonEmpty(rules[k].find(if mask then Masked(text, rules[..k]) else text))|
  {
    seq(|rules|, k requires 0 <= k < |rules| => |NonEmpty(rules[k].find(if mask then Masked(text, rules[..k]) else text))|)
  }

  /** The total is the sum of the hits of the rules. */
  lemma {:induction false} DetectedIsSum(text: Text, rules: seq<Rule>, mask: bool)
    requires AllValid(rules)
    ensures Detected(text, rules, mask) == Sum(Hits(text, rules, mask))
  {
    if rules != [] {
      var n := |rules| - 1;
      DetectedIsSum(text, rules[..n], mask);
      var front, all := Hits(text, rules[..n], mask), Hits(text, rules, mask);
      forall k | 0 <= k < n
        ensures all[k] == front[k]
      {
        assert rules[..n][..k] == rules[..k];
      }
      assert all == front + [all[n]];
      SumGrow(front, all[n]);
    }
  }

  /** A match hides something exactly if it is listed. */
  lemma {:induction false} NonEmptyIs(ms: seq<Match>)
    ensures forall m :: m in NonEmpty(ms) <==> m in ms && m.start < m.end
  {
    if ms != [] {
      NonEmptyIs(ms[1..]);
      assert forall m :: m in ms <==> m == ms[0] || m in ms[1..];
    }
  }

  lemma {:induction false} NothingToMatch(ms: seq<Match>)
    requires MatchesIn(ms, 0, 0)
    ensures NonEmpty(ms) == []
  {
    if ms != [] {
      MatchesInBounds(ms, 0, 0);
      NothingToMatch(ms[1..]);
    }
  }

  /** Nothing can be hidden in an empty text. */
  lemma {:induction false} EmptyText(rules: seq<Rule>, mask: bool)
    requires AllValid(rules)
    ensures Masked([], rules) == [] && Detected([], rules, mask) == 0
  {
    if rules != [] {
      EmptyText(rules[..|rules| - 1], mask);
      var rule := rules[|rules| - 1];
      assert rule.Valid();
      var empty: Text := [];
      var ms := rule.find(empty);
      assert MatchesIn(ms, 0, |empty|);
      NothingToMatch(ms);
    }
  }

  datatype MaskingResult = MaskingResult(text: Text, totalDetected: nat)

  /** `apply_rules`: the rules in turn, each on the text the earlier ones left (or, with `mask` off, find only). */
  method ApplyRules(text: Text, rules: seq<Rule>, mask: bool) returns (result: MaskingResult)
    requires AllValid(rules)
    ensures result.text == if mask then Masked(text, rules) else text
    ensures result.totalDetected == Detected(text, rules, mask) == Sum(Hits(text, rules, mask))
  {
    hide Substitute, NonEmpty, Hits;
    DetectedIsSum(text, rules, mask);
    result := MaskingResult(text, 0);
    if text == [] || rules == [] {
      if text == [] { EmptyText(rules, mask); }
      return;
    }
    for k := 0 to |rules|
      invariant result.text == if mask then Masked(text, rules[..k]) else text
      invariant result.totalDetected == Detected(text, rules[..k], mask)
    {
      assert rules[..k + 1][..k] == rules[..k] && rules[..k + 1][k] == rules[k];
      var hits := NonEmpty(rules[k].find(result.text));
      if hits == [] {
        continue;
      }
      result := result.(totalDetected := result.totalDetected + |hits|);
      if !mask {
        continue;
      }
      var masked := Substitute(rules[k], result.text);
      if masked != result.text {
        result := result.(text := masked);
      }
    }
    assert rules[..|rules|] == rules;
  }
}
