/** What the masking of an HTML document hides, place by place (files.py `mask_html_document`). */
module HtmlSearch {
  import opened Base
  import opened Rules
  import opened MaskedSpans
  import opened HtmlText
  import opened HtmlSegments
  import opened HtmlParts
  import opened HtmlSafe
  import opened HtmlMask

  // ---------------------------------------------------------------- one segment

  /** The spans with other masks. */
  function Rewritten(spans: seq<Edit<point>>, escape: Text -> Text): seq<Edit<point>> {
    seq(|spans|, k requires 0 <= k < |spans| => Edit(spans[k].start, spans[k].end, escape(spans[k].mask)))
  }

  /** References as edits of the written text. */
  function Resolved(entities: seq<Entity>): seq<Edit<point>> {
    if entities == [] then [] else [Edit(entities[0].start, entities[0].end, entities[0].value)] + Resolved(entities[1..])
  }

  /** The searched text is the written one with every reference replaced by what it stands for. */
  lemma {:induction false} DecodedIsResolved(segment: Text, entities: seq<Entity>, from: nat)
    requires EntitiesIn(entities, from, |segment|)
    ensures Ordered(Resolved(entities), from, |segment|)
    ensures Decoded(segment, entities, from) == Replace(segment, Resolved(entities), from)
  {
    EntitiesFit(entities, from, |segment|);
    if entities != [] {
      DecodedIsResolved(segment, entities[1..], entities[0].end);
      assert Resolved(entities)[1..] == Resolved(entities[1..]);
    }
  }

  lemma {:induction false} PlainTable(n: nat, i: nat)
    requires i < n
    ensures EntitiesIn([], 0, n) && |Table([], 0, n)| == n && Table([], 0, n)[i] == Place(i, i + 1)
  {
    PlainAt(0, n, i);
  }

  /** Without references the places are the searched ones. */
  lemma {:induction false} MapPlain(n: nat, spans: seq<Edit<point>>, escape: Text -> Text, last: nat)
    requires EntitiesIn([], 0, n) && |Table([], 0, n)| == n && DisjointSpans(spans, n)
    requires spans != [] ==> last <= spans[0].start
    ensures MapSpans(Table([], 0, n), spans, escape, last) == Rewritten(spans, escape)
    decreases |spans|
  {
    var table := Table([], 0, n);
    hide Table, MapSpans;
    if spans == [] {
      MapNothing(table, escape, last);
    } else {
      var s := spans[0];
      RestSpans(spans, n);
      MapFirst(table, spans, escape, last);
      PlainTable(n, s.start);
      PlainTable(n, s.end - 1);
      MapPlain(n, spans[1..], escape, s.end);
      var edits := MapSpans(table, spans, escape, last);
      assert edits == [edits[0]] + edits[1..];
      assert Rewritten(spans, escape) == [Edit(s.start, s.end, escape(s.mask))] + Rewritten(spans[1..], escape);
    }
  }

  /** Raw text is masked by the spans of the rules with safe masks. */
  lemma {:induction false} RawIsSpliced(segment: Text, rules: seq<Rule>, spans: seq<Edit<point>>, out: Text)
    requires AllValid(rules) && EntitiesIn([], 0, |segment|) && MaskedBy(segment, [], rules, RawSafe, spans, out)
    ensures SpansFor(segment, rules, spans) && Ordered(Rewritten(spans, RawSafe), 0, |segment|)
    ensures out == Replace(segment, Rewritten(spans, RawSafe), 0)
  {
    hide SpansFor, Table, MapSpans, Replace, Ordered, RawSafe, Rewritten;
    TableLength(segment, [], 0);
    assert Decoded(segment, [], 0) == segment[0..] == segment;
    MapPlain(|segment|, spans, RawSafe, 0);
  }

  // ---------------------------------------------------------------- the document

  /** The outcome of `mask_html_document`, segment by segment. */
  ghost predicate Outcome(g: Grammar, text: TextSyntax, document: Text, rules: seq<Rule>, segments: seq<Segment>,
                          pieces: seq<Text>, counts: seq<nat>)
    requires g.Valid() && text.Valid() && AllValid(rules)
  {
    && segments == Segments(g, document, 0, 0) && Inside(segments, |document|)
    && |pieces| == |counts| == |segments|
    && forall k :: 0 <= k < |segments| ==> Becomes(document, text, rules, segments[k], pieces[k], counts[k])
  }

  lemma {:induction false} OutcomeAt(g: Grammar, text: TextSyntax, document: Text, rules: seq<Rule>, segments: seq<Segment>,
                                     pieces: seq<Text>, counts: seq<nat>, s: Segment) returns (k: nat)
    requires g.Valid() && text.Valid() && AllValid(rules)
    requires Outcome(g, text, document, rules, segments, pieces, counts) && s in segments
    ensures k < |segments| == |pieces| == |counts| && segments[k] == s && s.start <= s.end <= |document|
    ensures Becomes(document, text, rules, s, pieces[k], counts[k])
  {
    hide Becomes, Segments;
    k :| 0 <= k < |segments| && segments[k] == s;
  }

  lemma {:induction false} OutcomeProper(g: Grammar, text: TextSyntax, document: Text, rules: seq<Rule>, segments: seq<Segment>,
                                         pieces: seq<Text>, counts: seq<nat>)
    requires g.Valid() && text.Valid() && AllValid(rules)
    requires Outcome(g, text, document, rules, segments, pieces, counts)
    ensures Cover(segments, 0, |document|) && AllProper(g, document, segments)
  {
    hide Becomes, Segments, Cover, AllProper, Outside, Inside;
    NoTagHere(document, 0);
    SegmentsCover(g, document, 0, 0);
    OutsideAtStart(g, document);
    SegmentsProper(g, document, 0, 0);
  }

  /** What a comment, CDATA section, script or style holds has its own place in the result, with exactly what the rules hide
      in it replaced by safe masks. */
  lemma {:induction false} HeldIsMasked(g: Grammar, text: TextSyntax, document: Text, rules: seq<Rule>, segments: seq<Segment>,
                                        pieces: seq<Text>, counts: seq<nat>, lt: nat, a: nat, b: nat)
    returns (k: nat, spans: seq<Edit<point>>)
    requires g.Valid() && text.Valid() && AllValid(rules)
    requires Outcome(g, text, document, rules, segments, pieces, counts)
    requires Searched(g, document, lt, a, b) && a < b
    ensures k < |segments| == |pieces| == |counts| && segments[k] == Segment(a, b, Raw) && b <= |document|
    ensures var content := document[a..b];
            && SpansFor(content, rules, spans) && counts[k] == |spans|
            && Ordered(Rewritten(spans, RawSafe), 0, |content|)
            && pieces[k] == Replace(content, Rewritten(spans, RawSafe), 0)
  {
    hide *;
    OutcomeProper(g, text, document, rules, segments, pieces, counts);
    HeldIsRaw(g, document, segments, lt, a, b);
    k := OutcomeAt(g, text, document, rules, segments, pieces, counts, Segment(a, b, Raw));
    RawBecomes(document, text, rules, Segment(a, b, Raw), pieces[k], counts[k]);
    var content := document[a..b];
    spans := TheSpans(content, [], rules, RawSafe, pieces[k], counts[k]);
    RawIsSpliced(content, rules, spans, pieces[k]);
  }

  lemma {:induction false} RawBecomes(document: Text, text: TextSyntax, rules: seq<Rule>, s: Segment, out: Text, hits: nat)
    requires s.start <= s.end <= |document| && text.Valid() && AllValid(rules) && s.kind == Raw
    requires Becomes(document, text, rules, s, out, hits)
    ensures var content := document[s.start..s.end];
            EntitiesIn([], 0, |content|) && MaskedWith(content, [], rules, RawSafe, out, hits)
  {
    hide MaskedWith;
  }

  lemma {:induction false} TextBecomes(document: Text, text: TextSyntax, rules: seq<Rule>, s: Segment, out: Text, hits: nat)
    requires s.start <= s.end <= |document| && text.Valid() && AllValid(rules) && s.kind == Text
    requires Becomes(document, text, rules, s, out, hits)
    ensures var content := document[s.start..s.end];
            && EntitiesIn(text.references(content), 0, |content|)
            && MaskedWith(content, text.references(content), rules, EscapeText, out, hits)
  {
    hide MaskedWith;
  }

  /** So has every stretch between constructs; no written character of what the rules hide in its decoded text is left. */
  lemma {:induction false} OpenIsMasked(g: Grammar, text: TextSyntax, document: Text, rules: seq<Rule>, segments: seq<Segment>,
                                        pieces: seq<Text>, counts: seq<nat>, a: nat, b: nat)
    returns (k: nat, spans: seq<Edit<point>>)
    requires g.Valid() && text.Valid() && AllValid(rules)
    requires Outcome(g, text, document, rules, segments, pieces, counts) && Open(g, document, a, b)
    ensures k < |segments| == |pieces| == |counts| && segments[k] == Segment(a, b, Text) && a < b <= |document|
    ensures var content := document[a..b];
            var references := text.references(content);
            && EntitiesIn(references, 0, |content|) && counts[k] == |spans|
            && MaskedBy(content, references, rules, EscapeText, spans, pieces[k])
            && forall p: nat :: WrittenFor(Table(references, 0, |content|), spans, p) ==>
                 Covered(MapSpans(Table(references, 0, |content|), spans, EscapeText, 0), p)
  {
    hide *;
    OutcomeProper(g, text, document, rules, segments, pieces, counts);
    OpenIsText(g, document, segments, a, b);
    k := OutcomeAt(g, text, document, rules, segments, pieces, counts, Segment(a, b, Text));
    OpenParts(g, document, a, b);
    TextBecomes(document, text, rules, Segment(a, b, Text), pieces[k], counts[k]);
    var content := document[a..b];
    var references := text.references(content);
    spans := TheSpans(content, references, rules, EscapeText, pieces[k], counts[k]);
    SpansOnTable(content, references, rules, EscapeText, spans, pieces[k]);
    forall p: nat | WrittenFor(Table(references, 0, |content|), spans, p)
      ensures Covered(MapSpans(Table(references, 0, |content|), spans, EscapeText, 0), p)
    {
      MaskedHides(content, references, rules, EscapeText, spans, pieces[k], p);
    }
  }

  lemma {:induction false} OpenParts(g: Grammar, document: Text, a: nat, b: nat)
    requires g.Valid() && Open(g, document, a, b)
    ensures a < b <= |document|
  {
    hide InConstruct;
  }

  lemma {:induction false} SpansOnTable(segment: Text, entities: seq<Entity>, rules: seq<Rule>, escape: Text -> Text,
                                        spans: seq<Edit<point>>, out: Text)
    requires EntitiesIn(entities, 0, |segment|) && AllValid(rules) && MaskedBy(segment, entities, rules, escape, spans, out)
    ensures DisjointSpans(spans, |Table(entities, 0, |segment|)|)
  {
    hide SpansFor, Decoded, Table, MapSpans, Replace, Ordered;
  }
}
