/** A paragraph of a zipped Hangul document (_hwp.py `_mask_hwpx_section`): its text segments are searched as one text. */
module Hwpx {
  import opened Base
  import opened Rules
  import opened Spans
  import opened MaskedSpans
  import opened Distribute
  import opened Pieces
  import opened Ooxml
  import opened HtmlSegments
  import opened HtmlSafe
  import HtmlEscapes
  import HtmlParts

  /** A piece of the text of a paragraph: a place of the section, written as a CDATA section or with references. */
  datatype Part = Part(start: nat, end: nat, cdata: bool)

  ghost predicate PartsIn(parts: seq<Part>, n: nat) {
    && (forall k :: 0 <= k < |parts| ==> parts[k].start <= parts[k].end <= n)
    && (forall j, k :: 0 <= j < k < |parts| ==> parts[j].end <= parts[k].start)
  }

  // ---------------------------------------------------------------- writing and reading one segment

  /** A control character XML does not allow. */
  predicate Forbidden(ch: point) {
    ch < 32 && ch != 9 && ch != 10
  }

  /** Forbidden characters become spaces. */
  function Blank(text: Text): (blank: Text)
    ensures |blank| == |text|
  {
    seq(|text|, i requires 0 <= i < |text| => if Forbidden(text[i]) then SPACE else text[i])
  }

  /** `_segment_value`. */
  function SegmentValue(xml: Xml, text: Text, cdata: bool): Text {
    if cdata then ReplaceAll(Blank(text), CDATA_CLOSE, Broken(CDATA_CLOSE, SPACE)) else xml.escape(Blank(text))
  }

  /** `_segment_text`. */
  function SegmentText(xml: Xml, written: Text, cdata: bool): Text {
    if cdata then written else xml.unescape(written)
  }

  /** Control characters other than tab and line feed become spaces, and all else stays; a CDATA section gets a space into every
      closing mark. */
  lemma {:induction false} BlankSays(xml: Xml, text: Text)
    ensures forall i :: 0 <= i < |text| ==>
              Blank(text)[i] == if text[i] < 32 && text[i] != '\t' as int && text[i] != '\n' as int then ' ' as int else text[i]
    ensures SegmentValue(xml, text, true) == HtmlEscapes.Split(Blank(text), "]]>", ' ' as int)
    ensures SegmentValue(xml, text, false) == xml.escape(Blank(text))
  {
    hide ReplaceAll, Broken, HtmlEscapes.Parted;
    HtmlParts.MarksSay();
    HtmlEscapes.BreakWhole(Blank(text), CDATA_CLOSE, SPACE);
  }

  /** Text that can be written as it is. */
  ghost predicate Writable(text: Text, cdata: bool) {
    (forall i :: 0 <= i < |text| ==> !Forbidden(text[i])) && (cdata ==> Free(text, CDATA_CLOSE))
  }

  lemma {:induction false} ReplaceAllSame(s: Text, pattern: Text, c: point)
    requires |pattern| >= 2
    ensures |ReplaceAll(s, pattern, Broken(pattern, c))| >= |s|
    ensures |ReplaceAll(s, pattern, Broken(pattern, c))| == |s| <==> Free(s, pattern)
    ensures Free(s, pattern) ==> ReplaceAll(s, pattern, Broken(pattern, c)) == s
    decreases |s|
  {
    hide ReplaceAll, Broken, Free;
    if |s| < |pattern| {
      Short(s, pattern, c);
      ShortIsFree(s, pattern);
    } else {
      ReplaceNext(s, pattern, c);
      if s[..|pattern|] == pattern {
        ReplaceAllSame(s[|pattern|..], pattern, c);
        assert s[0..|pattern|] == s[..|pattern|];
        NotFree(s, pattern, 0);
      } else {
        ReplaceAllSame(s[1..], pattern, c);
        FreeCons(s, pattern);
      }
    }
  }

  lemma {:induction false} FreeCons(s: Text, q: Text)
    requires |s| >= |q| >= 1 && s[..|q|] != q
    ensures Free(s, q) <==> Free(s[1..], q)
  {
    if !Free(s[1..], q) { NotFreeLater(s, 1, q); }
    if !Free(s, q) {
      var i: nat :| StartsWith(s, q, i);
      assert s[0..|q|] == s[..|q|];
      assert s == [s[0]] + s[1..];
      ConsAt(s[0], s[1..], q, i);
      NotFree(s[1..], q, i - 1);
    }
  }

  /** What is written reads back as the text exactly if the text is writable; a CDATA section is never closed by it. */
  lemma {:induction false} SegmentReadsBack(xml: Xml, text: Text, cdata: bool)
    requires xml.Valid()
    ensures SegmentText(xml, SegmentValue(xml, text, cdata), cdata) == text <==> Writable(text, cdata)
    ensures cdata ==> Free(SegmentValue(xml, text, cdata), CDATA_CLOSE)
  {
    hide Free, ReplaceAll, Broken;
    BlankSame(text);
    if cdata {
      ReplaceAllSame(Blank(text), CDATA_CLOSE, SPACE);
      BreakUp(Blank(text), CDATA_CLOSE, SPACE, CDATA_CLOSE);
    }
  }

  lemma {:induction false} BlankSame(text: Text)
    ensures Blank(text) == text <==> forall i :: 0 <= i < |text| ==> !Forbidden(text[i])
  {
    if Blank(text) == text {
      forall i | 0 <= i < |text|
        ensures !Forbidden(text[i])
      {
        assert Blank(text)[i] == text[i];
      }
    }
  }

  // ---------------------------------------------------------------- one paragraph

  ghost function PartTexts(xml: Xml, section: Text, parts: seq<Part>): (texts: seq<Text>)
    requires PartsIn(parts, |section|)
    ensures |texts| == |parts|
  {
    seq(|parts|, i requires 0 <= i < |parts| => SegmentText(xml, section[parts[i].start..parts[i].end], parts[i].cdata))
  }

  /** One edit for each segment with a new text, in order. */
  function PartEdits(xml: Xml, parts: seq<Part>, replaced: map<nat, Text>, n: nat): seq<Edit<point>>
    requires n <= |parts|
  {
    if n == 0 then []
    else
      var p := parts[n - 1];
      PartEdits(xml, parts, replaced, n - 1)
      + if n - 1 in replaced then [Edit(p.start, p.end, SegmentValue(xml, replaced[n - 1], p.cdata))] else []
  }

  /** Exactly the segments a span reaches are written anew, each with its share of the masks in proportion. */
  ghost predicate MaskedInProportion(texts: seq<Text>, rules: seq<Rule>, spans: seq<Edit<point>>, replaced: map<nat, Text>)
    requires AllValid(rules)
  {
    SpansFor(Join(texts), rules, spans) && Shared(texts, spans, Proportional, replaced, |texts|)
  }

  method ReadParts(xml: Xml, section: Text, parts: seq<Part>) returns (texts: seq<Text>)
    requires PartsIn(parts, |section|)
    ensures texts == PartTexts(xml, section, parts)
  {
    texts := [];
    for i := 0 to |parts|
      invariant |texts| == i && forall k :: 0 <= k < i ==> texts[k] == PartTexts(xml, section, parts)[k]
    {
      texts := texts + [SegmentText(xml, section[parts[i].start..parts[i].end], parts[i].cdata)];
    }
  }

  method MaskParagraph(xml: Xml, section: Text, parts: seq<Part>, rules: seq<Rule>)
    returns (edits: seq<Edit<point>>, hits: nat, replaced: map<nat, Text>, spans: seq<Edit<point>>)
    requires xml.Valid() && PartsIn(parts, |section|) && AllValid(rules)
    ensures MaskedInProportion(PartTexts(xml, section, parts), rules, spans, replaced) && hits == |spans|
    ensures edits == PartEdits(xml, parts, replaced, |parts|) && Ordered(edits, 0, |section|)
  {
    hide *;
    var texts := ReadParts(xml, section, parts);
    var joined := JoinTexts(texts);
    spans := FindMaskedSpans(joined, rules);
    hits := |spans|;
    SpansSay(joined, rules, spans);
    replaced := DistributeInProportion(texts, spans);
    InProportion(texts, rules, spans, replaced);
    edits := [];
    PartEditsNone(xml, parts, replaced);
    for i := 0 to |parts|
      invariant edits == PartEdits(xml, parts, replaced, i)
    {
      PartEditsStep(xml, parts, replaced, i);
      assert edits + [] == edits;
      if i in replaced {
        edits := edits + [Edit(parts[i].start, parts[i].end, SegmentValue(xml, replaced[i], parts[i].cdata))];
      }
    }
    PartEditsOrdered(xml, parts, replaced, |parts|, |section|);
  }

  lemma {:induction false} InProportion(texts: seq<Text>, rules: seq<Rule>, spans: seq<Edit<point>>, replaced: map<nat, Text>)
    requires AllValid(rules) && SpansFor(Join(texts), rules, spans) && DisjointSpans(spans, |Join(texts)|)
    requires Shared(texts, spans, Proportional, replaced, |texts|)
    ensures MaskedInProportion(texts, rules, spans, replaced)
  {
  }

  lemma {:induction false} PartEditsNone(xml: Xml, parts: seq<Part>, replaced: map<nat, Text>)
    ensures PartEdits(xml, parts, replaced, 0) == []
  {
  }

  lemma {:induction false} PartEditsStep(xml: Xml, parts: seq<Part>, replaced: map<nat, Text>, i: nat)
    requires i < |parts|
    ensures var more := if i in replaced
                        then [Edit(parts[i].start, parts[i].end, SegmentValue(xml, replaced[i], parts[i].cdata))] else [];
            PartEdits(xml, parts, replaced, i + 1) == PartEdits(xml, parts, replaced, i) + more
  {
  }

  lemma {:induction false} PartEditsOrdered(xml: Xml, parts: seq<Part>, replaced: map<nat, Text>, n: nat, length: nat)
    requires PartsIn(parts, length) && n <= |parts|
    ensures Ordered(PartEdits(xml, parts, replaced, n), 0, if n == 0 then length else parts[n - 1].end)
    ensures Ordered(PartEdits(xml, parts, replaced, n), 0, length)
    decreases n
  {
    hide Ordered, SegmentValue;
    if n == 0 {
      OrderedEmpty(length);
    } else {
      PartEditsOrdered(xml, parts, replaced, n - 1, length);
      PartEditsStep(xml, parts, replaced, n - 1);
      var p, before := parts[n - 1], PartEdits(xml, parts, replaced, n - 1);
      var end := if n == 1 then 0 else parts[n - 2].end;
      if n == 1 { OrderedEmpty(0); }
      if n - 1 in replaced {
        OrderedSnoc(before, 0, end, Edit(p.start, p.end, SegmentValue(xml, replaced[n - 1], p.cdata)));
      } else {
        OrderedUpto(before, 0, end, p.end);
        assert before + [] == before;
      }
      OrderedUpto(PartEdits(xml, parts, replaced, n), 0, p.end, length);
    }
  }

  lemma {:induction false} OrderedEmpty(n: nat)
    ensures Ordered<point>([], 0, n)
  {
  }

  lemma {:induction false} OrderedUpto(edits: seq<Edit<point>>, from: nat, upto: nat, later: nat)
    requires Ordered(edits, from, upto) && upto <= later
    ensures Ordered(edits, from, later)
  {
    if edits != [] { OrderedUpto(edits[1..], edits[0].end, upto, later); }
  }

  lemma {:induction false} OrderedSnoc(edits: seq<Edit<point>>, from: nat, upto: nat, e: Edit<point>)
    requires Ordered(edits, from, upto) && upto <= e.start <= e.end
    ensures Ordered(edits + [e], from, e.end)
  {
    if edits != [] {
      assert (edits + [e])[1..] == edits[1..] + [e];
      OrderedSnoc(edits[1..], edits[0].end, upto, e);
    }
  }

  /** The new texts of the segments are, joined, exactly the masked text; and a segment with text gets a new one exactly if
      not all its characters survive. */
  lemma {:induction false} ParagraphIsMasked(texts: seq<Text>, rules: seq<Rule>, spans: seq<Edit<point>>, replaced: map<nat, Text>)
    requires AllValid(rules) && MaskedInProportion(texts, rules, spans, replaced)
    ensures Join(Final(texts, replaced)) == Masked(Join(texts), rules)
    ensures forall i: nat :: i < |texts| && texts[i] != [] ==>
              (i in replaced <==> !AllSurvive(Join(texts), rules, Start(texts, i), Start(texts, i + 1)))
  {
    SpansSay(Join(texts), rules, spans);
    hide Trace, Survives, Masked, Replace, Join, SpansFor, AllSurvive, RangeOut, Touched, Proportional;
    ProportionalFair<point>();
    SharedIsSpliced(texts, spans, Proportional, replaced);
    forall i: nat | i < |texts| && texts[i] != []
      ensures i in replaced <==> !AllSurvive(Join(texts), rules, Start(texts, i), Start(texts, i + 1))
    {
      PieceText(texts, i);
      TouchedIsHidden(Join(texts), rules, spans, Start(texts, i), Start(texts, i + 1));
    }
  }
}
