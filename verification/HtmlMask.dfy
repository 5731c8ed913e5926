/** Masking an HTML document (files.py `_mask_html_text`, `mask_html_document`). */
module HtmlMask {
  import opened Base
  import opened Rules
  import opened HtmlText
  import opened HtmlScan
  import opened HtmlClosing
  import opened HtmlSegments
  import opened Spans
  import opened MaskedSpans
  import opened HtmlSafe

  // ---------------------------------------------------------------- from decoded spans to written text

  /** Places come in order; neighbours share a place only inside one reference. */
  ghost predicate InOrder(table: seq<Place>, from: nat, n: nat) {
    && (forall i :: 0 <= i < |table| ==> from <= table[i].start < table[i].end <= n)
    && (forall i, j :: 0 <= i < j < |table| ==> table[i] == table[j] || table[i].end <= table[j].start)
  }

  lemma {:induction false} PlainInOrder(from: nat, upto: nat)
    ensures InOrder(Plain(from, upto), from, if from <= upto then upto else from)
  {
    forall i: nat | i < |Plain(from, upto)|
      ensures Plain(from, upto)[i] == Place(from + i, from + i + 1)
    {
      PlainAt(from, upto, i);
    }
  }

  lemma {:induction false} OrderJoin(a: seq<Place>, b: seq<Place>, from: nat, mid: nat, n: nat)
    requires InOrder(a, from, mid) && InOrder(b, mid, n) && from <= mid <= n
    ensures InOrder(a + b, from, n)
  {
  }

  lemma {:induction false} TableInOrder(entities: seq<Entity>, from: nat, n: nat)
    requires EntitiesIn(entities, from, n)
    ensures InOrder(Table(entities, from, n), from, n)
  {
    EntitiesFit(entities, from, n);
    if entities == [] {
      PlainInOrder(from, n);
    } else {
      var e := entities[0];
      EntitiesFit(entities[1..], e.end, n);
      PlainInOrder(from, e.start);
      TableInOrder(entities[1..], e.end, n);
      var whole := Repeat(Place(e.start, e.end), |e.value|);
      assert InOrder(whole, e.start, e.end);
      hide InOrder;
      OrderJoin(Plain(from, e.start), whole, from, e.start, e.end);
      OrderJoin(Plain(from, e.start) + whole, Table(entities[1..], e.end, n), from, e.end, n);
    }
  }

  /** The spans in terms of written text: from the first place of a span to its last, but never back behind `last`. */
  ghost function MapSpans(table: seq<Place>, spans: seq<Edit<point>>, escape: Text -> Text, last: nat): (edits: seq<Edit<point>>)
    requires DisjointSpans(spans, |table|)
    ensures |edits| == |spans|
    decreases |spans|
  {
    if spans == [] then []
    else
      var s := spans[0];
      RestSpans(spans, |table|);
      [Edit(Max(table[s.start].start, last), Max(table[s.end - 1].end, last), escape(s.mask))]
      + MapSpans(table, spans[1..], escape, Max(table[s.end - 1].end, last))
  }

  lemma {:induction false} RestSpans(spans: seq<Edit<point>>, n: nat)
    requires DisjointSpans(spans, n) && spans != []
    ensures spans[0].start < spans[0].end <= n && DisjointSpans(spans[1..], n)
    ensures forall k :: 0 <= k < |spans[1..]| ==> spans[0].end <= spans[1..][k].start
  {
  }

  lemma {:induction false} MappedOrdered(table: seq<Place>, spans: seq<Edit<point>>, escape: Text -> Text, last: nat, n: nat)
    requires DisjointSpans(spans, |table|) && InOrder(table, 0, n) && last <= n
    ensures Ordered(MapSpans(table, spans, escape, last), last, n)
    decreases |spans|
  {
    hide *;
    if spans != [] {
      var s := spans[0];
      MapFirst(table, spans, escape, last);
      FirstFits(table, s, n);
      var next := Max(table[s.end - 1].end, last);
      MappedOrdered(table, spans[1..], escape, next, n);
      OrderedCons(MapSpans(table, spans, escape, last), last, n);
    } else {
      MapNothing(table, escape, last);
      OrderedNone(last, n);
    }
  }

  lemma {:induction false} FirstFits(table: seq<Place>, s: Edit<point>, n: nat)
    requires InOrder(table, 0, n) && s.start < s.end <= |table|
    ensures table[s.start].start < table[s.end - 1].end <= n
  {
    assert s.start == s.end - 1 || table[s.start] == table[s.end - 1] || table[s.start].end <= table[s.end - 1].start;
  }

  lemma {:induction false} OrderedCons(edits: seq<Edit<point>>, from: nat, n: nat)
    requires edits != [] && from <= edits[0].start <= edits[0].end && Ordered(edits[1..], edits[0].end, n)
    ensures Ordered(edits, from, n)
  {
  }

  lemma {:induction false} OrderedNone(from: nat, n: nat)
    requires from <= n
    ensures Ordered<point>([], from, n)
  {
  }

  /** The written text of a masked character. */
  ghost predicate WrittenFor(table: seq<Place>, spans: seq<Edit<point>>, p: nat) {
    exists i :: 0 <= i < |table| && Covered(spans, i) && table[i].start <= p < table[i].end
  }

  /** No written character of anything masked is left: every place of a masked character is replaced. */
  lemma {:induction false} MappedHides(table: seq<Place>, spans: seq<Edit<point>>, escape: Text -> Text, last: nat, n: nat, p: nat)
    requires DisjointSpans(spans, |table|) && InOrder(table, 0, n) && WrittenFor(table, spans, p)
    ensures p < last || Covered(MapSpans(table, spans, escape, last), p)
    decreases |spans|
  {
    hide *;
    var i, e := WhoseText(table, spans, p);
    var s, edits := spans[0], MapSpans(table, spans, escape, last);
    RestSpans(spans, |table|);
    MapFirst(table, spans, escape, last);
    var next := Max(table[s.end - 1].end, last);
    var rest := MapSpans(table, spans[1..], escape, next);
    if s.start <= i < s.end {
      HiddenByFirst(table, s, i, p, n);
      if p >= last { CoveredByFirst(edits, p); }
    } else {
      InRest(spans, e);
      IsWritten(table, spans[1..], e, i, p);
      MappedHides(table, spans[1..], escape, next, n, p);
      if p >= next {
        CoveredByRest(edits, p);
      } else if p >= last {
        BehindFirst(table, spans, e, i, p, n);
        HiddenByFirst(table, s, s.end - 1, p, n);
        CoveredByFirst(edits, p);
      }
    }
  }

  /** Nothing but written text of the spans is replaced: from the first place of a span to its last one. */
  lemma {:induction false} MappedOnly(table: seq<Place>, spans: seq<Edit<point>>, escape: Text -> Text, last: nat, p: nat)
    requires DisjointSpans(spans, |table|) && Covered(MapSpans(table, spans, escape, last), p)
    ensures exists k :: 0 <= k < |spans| && Stretch(table, spans[k], p)
    decreases |spans|
  {
    hide Covered;
    var edits := MapSpans(table, spans, escape, last);
    var e := CoveringEdit(edits, p);
    RestSpans(spans, |table|);
    MapFirst(table, spans, escape, last);
    if e == edits[0] {
      assert Stretch(table, spans[0], p);
    } else {
      InRest(edits, e);
      IsCovered(edits[1..], e, p);
      MappedOnly(table, spans[1..], escape, Max(table[spans[0].end - 1].end, last), p);
      var k :| 0 <= k < |spans[1..]| && Stretch(table, spans[1..][k], p);
      assert Stretch(table, spans[k + 1], p);
    }
  }

  /** Place `p` lies in the written text of a span. */
  ghost predicate Stretch(table: seq<Place>, s: Edit<point>, p: nat) {
    s.start < s.end <= |table| && table[s.start].start <= p < table[s.end - 1].end
  }

  lemma {:induction false} CoveringEdit(edits: seq<Edit<point>>, p: nat) returns (e: Edit<point>)
    requires Covered(edits, p)
    ensures e in edits && e.start <= p < e.end
  {
    e :| e in edits && e.start <= p < e.end;
  }

  lemma {:induction false} IsCovered(edits: seq<Edit<point>>, e: Edit<point>, p: nat)
    requires e in edits && e.start <= p < e.end
    ensures Covered(edits, p)
  {
  }

  lemma {:induction false} WhoseText(table: seq<Place>, spans: seq<Edit<point>>, p: nat) returns (i: nat, e: Edit<point>)
    requires WrittenFor(table, spans, p)
    ensures i < |table| && e in spans && e.start <= i < e.end && table[i].start <= p < table[i].end && spans != []
  {
    i :| 0 <= i < |table| && Covered(spans, i) && table[i].start <= p < table[i].end;
    e :| e in spans && e.start <= i < e.end;
  }

  lemma {:induction false} IsWritten(table: seq<Place>, spans: seq<Edit<point>>, e: Edit<point>, i: nat, p: nat)
    requires i < |table| && e in spans && e.start <= i < e.end && table[i].start <= p < table[i].end
    ensures WrittenFor(table, spans, p)
  {
    assert Covered(spans, i);
  }

  lemma {:induction false} InRest(spans: seq<Edit<point>>, e: Edit<point>)
    requires e in spans && e != spans[0]
    ensures e in spans[1..]
  {
    assert spans == [spans[0]] + spans[1..];
  }

  lemma {:induction false} CoveredByFirst(edits: seq<Edit<point>>, p: nat)
    requires edits != [] && edits[0].start <= p < edits[0].end
    ensures Covered(edits, p)
  {
    assert edits[0] in edits;
  }

  lemma {:induction false} CoveredByRest(edits: seq<Edit<point>>, p: nat)
    requires edits != [] && Covered(edits[1..], p)
    ensures Covered(edits, p)
  {
    var f :| f in edits[1..] && f.start <= p < f.end;
    assert f in edits;
  }

  lemma {:induction false} MapFirst(table: seq<Place>, spans: seq<Edit<point>>, escape: Text -> Text, last: nat)
    requires DisjointSpans(spans, |table|) && spans != []
    ensures spans[0].start < spans[0].end <= |table| && DisjointSpans(spans[1..], |table|)
    ensures var s := spans[0];
            var edits, next := MapSpans(table, spans, escape, last), Max(table[s.end - 1].end, last);
            && edits != [] && edits[0] == Edit(Max(table[s.start].start, last), next, escape(s.mask))
            && next == (if table[s.end - 1].end < last then last else table[s.end - 1].end)
            && Max(table[s.start].start, last) == (if table[s.start].start < last then last else table[s.start].start)
            && edits[1..] == MapSpans(table, spans[1..], escape, next)
  {
    RestSpans(spans, |table|);
  }

  lemma {:induction false} HiddenByFirst(table: seq<Place>, s: Edit<point>, i: nat, p: nat, n: nat)
    requires InOrder(table, 0, n) && s.start <= i < s.end <= |table| && table[i].start <= p < table[i].end
    ensures table[s.start].start <= p < table[s.end - 1].end
  {
    assert i == s.start || table[s.start] == table[i] || table[s.start].end <= table[i].start;
    assert i == s.end - 1 || table[i] == table[s.end - 1] || table[i].end <= table[s.end - 1].start;
  }

  /** A later masked character whose written text reaches back into the first span shares its last reference. */
  lemma {:induction false} BehindFirst(table: seq<Place>, spans: seq<Edit<point>>, e: Edit<point>, i: nat, p: nat, n: nat)
    requires InOrder(table, 0, n) && DisjointSpans(spans, |table|) && spans != [] && e in spans[1..]
    requires e.start <= i < e.end <= |table| && table[i].start <= p < table[i].end
    requires p < table[spans[0].end - 1].end
    ensures table[spans[0].end - 1] == table[i]
  {
    RestSpans(spans, |table|);
    assert spans[0].end - 1 < i;
  }

  // ---------------------------------------------------------------- one segment

  /** `out` is the segment with the spans of its decoded text masked. */
  ghost predicate MaskedBy(segment: Text, entities: seq<Entity>, rules: seq<Rule>, escape: Text -> Text,
                           spans: seq<Edit<point>>, out: Text)
    requires EntitiesIn(entities, 0, |segment|) && AllValid(rules)
  {
    var decoded, table := Decoded(segment, entities, 0), Table(entities, 0, |segment|);
    && SpansFor(decoded, rules, spans) && DisjointSpans(spans, |table|)
    && var edits := MapSpans(table, spans, escape, 0);
    Ordered(edits, 0, |segment|) && out == Replace(segment, edits, 0)
  }

  /** What masking a segment guarantees: outside the replaced stretches it is copied in order (that is what `Replace`
      says), and no written character of a masked one is outside them. */
  lemma {:induction false} MaskedHides(segment: Text, entities: seq<Entity>, rules: seq<Rule>, escape: Text -> Text,
                                       spans: seq<Edit<point>>, out: Text, p: nat)
    requires EntitiesIn(entities, 0, |segment|) && AllValid(rules) && MaskedBy(segment, entities, rules, escape, spans, out)
    requires WrittenFor(Table(entities, 0, |segment|), spans, p)
    ensures Covered(MapSpans(Table(entities, 0, |segment|), spans, escape, 0), p)
  {
    hide Decoded, Table, Masked, Replace, WrittenFor, InOrder;
    TableInOrder(entities, 0, |segment|);
    MappedHides(Table(entities, 0, |segment|), spans, escape, 0, |segment|, p);
  }

  /** `_mask_html_text`. */
  method MaskHtmlText(segment: Text, entities: seq<Entity>, rules: seq<Rule>, escape: Text -> Text)
    returns (out: Text, hits: nat, ghost spans: seq<Edit<point>>)
    requires EntitiesIn(entities, 0, |segment|) && AllValid(rules)
    ensures MaskedBy(segment, entities, rules, escape, spans, out) && hits == |spans|
    ensures hits == 0 ==> out == segment
  {
    hide *;
    var decoded, rows := CollectRows(segment, entities);
    var found := FindMaskedSpans(decoded, rules);
    spans, hits := found, |found|;
    SpansSay(decoded, rules, found);
    TableLength(segment, entities, 0);
    TableInOrder(entities, 0, |segment|);
    ghost var table := Table(entities, 0, |segment|);
    MappedOrdered(table, found, escape, 0, |segment|);
    ghost var edits := MapSpans(table, found, escape, 0);
    out := [];
    var last: nat := 0;
    assert [] + Replace(segment, edits, 0) == Replace(segment, edits, 0);
    assert found[0..] == found;
    for k := 0 to |found|
      invariant last <= |segment| && DisjointSpans(found[k..], |table|)
      invariant var rest := MapSpans(table, found[k..], escape, last);
                Ordered(rest, last, |segment|) && out + Replace(segment, rest, last) == Replace(segment, edits, 0)
      invariant k == 0 ==> last == 0 && out == []
    {
      var s := found[k];
      ghost var rest := found[k..];
      assert rest[0] == s && rest[1..] == found[k + 1..];
      RestSpans(rest, |table|);
      MapStep(segment, table, rest, escape, last);
      var first := RawRange(segment, entities, rows, s.start);
      var final := RawRange(segment, entities, rows, s.end - 1);
      var start := if first.start < last then last else first.start;
      var end := if final.end < last then last else final.end;
      Assoc4(out, segment[last..start], escape(s.mask), Replace(segment, MapSpans(table, found[k + 1..], escape, end), end));
      out := out + segment[last..start] + escape(s.mask);
      last := end;
    }
    assert found[|found|..] == [];
    MapNothing(table, escape, last);
    ReplaceNone(segment, last);
    out := out + segment[last..];
    MaskedIs(segment, entities, rules, escape, found, out);
    if hits == 0 { assert [] + segment[0..] == segment; }
  }

  lemma {:induction false} MapNothing(table: seq<Place>, escape: Text -> Text, last: nat)
    ensures DisjointSpans<point>([], |table|) && MapSpans(table, [], escape, last) == []
  {
  }

  lemma {:induction false} MapStep(segment: Text, table: seq<Place>, spans: seq<Edit<point>>, escape: Text -> Text, last: nat)
    requires spans != [] && DisjointSpans(spans, |table|) && last <= |segment|
    requires Ordered(MapSpans(table, spans, escape, last), last, |segment|)
    ensures var s := spans[0];
            && s.start < s.end <= |table| && DisjointSpans(spans[1..], |table|)
            && var start, end := if table[s.start].start < last then last else table[s.start].start,
                                 if table[s.end - 1].end < last then last else table[s.end - 1].end;
            && last <= start <= end <= |segment|
            && var rest := MapSpans(table, spans[1..], escape, end);
            && Ordered(rest, end, |segment|)
            && Replace(segment, MapSpans(table, spans, escape, last), last)
                 == segment[last..start] + escape(s.mask) + Replace(segment, rest, end)
  {
    RestSpans(spans, |table|);
    var edits := MapSpans(table, spans, escape, last);
    OrderedBounds(edits, last, |segment|);
    OrderedBounds(edits[1..], edits[0].end, |segment|);
    var end := Max(table[spans[0].end - 1].end, last);
    assert edits[1..] == MapSpans(table, spans[1..], escape, end);
  }

  lemma {:induction false} MaskedIs(segment: Text, entities: seq<Entity>, rules: seq<Rule>, escape: Text -> Text,
                                    spans: seq<Edit<point>>, out: Text)
    requires EntitiesIn(entities, 0, |segment|) && AllValid(rules)
    requires var decoded, table := Decoded(segment, entities, 0), Table(entities, 0, |segment|);
             && SpansFor(decoded, rules, spans) && |table| == |decoded| && DisjointSpans(spans, |table|)
             && var edits := MapSpans(table, spans, escape, 0);
             Ordered(edits, 0, |segment|) && out == Replace(segment, edits, 0)
    ensures MaskedBy(segment, entities, rules, escape, spans, out)
  {
    hide Decoded, Table, Masked, Replace, MapSpans, Ordered, SpansFor;
  }

  // ---------------------------------------------------------------- the document

  /** The reference expression with `html.unescape`. */
  datatype TextSyntax = TextSyntax(references: Text -> seq<Entity>) {
    ghost predicate Valid() {
      forall s :: EntitiesIn(references(s), 0, |s|)
    }
  }

  ghost predicate Inside(segments: seq<Segment>, n: nat) {
    forall k :: 0 <= k < |segments| ==> segments[k].start <= segments[k].end <= n
  }

  lemma {:induction false} CoverInside(segments: seq<Segment>, from: nat, n: nat)
    requires Cover(segments, from, n)
    ensures from <= n && Inside(segments, n)
  {
    if segments != [] { CoverInside(segments[1..], segments[0].end, n); }
  }

  function Written(document: Text, s: Segment): Text
    requires s.start <= s.end <= |document|
  {
    document[s.start..s.end]
  }

  /** What becomes of one segment: markup stays, text is masked with its references resolved, raw text as it is. */
  ghost predicate Becomes(document: Text, text: TextSyntax, rules: seq<Rule>, s: Segment, out: Text, hits: nat)
    requires s.start <= s.end <= |document| && text.Valid() && AllValid(rules)
  {
    var piece := Written(document, s);
    match s.kind
    case Markup => out == piece && hits == 0
    case Text => MaskedWith(piece, text.references(piece), rules, EscapeText, out, hits)
    case Raw => EntitiesIn([], 0, |piece|) && MaskedWith(piece, [], rules, RawSafe, out, hits)
  }

  ghost predicate MaskedWith(segment: Text, entities: seq<Entity>, rules: seq<Rule>, escape: Text -> Text, out: Text, hits: nat)
    requires EntitiesIn(entities, 0, |segment|) && AllValid(rules)
  {
    exists spans :: MaskedBy(segment, entities, rules, escape, spans, out) && hits == |spans|
  }

  ghost function Originals(document: Text, segments: seq<Segment>): (pieces: seq<Text>)
    requires Inside(segments, |document|)
    ensures |pieces| == |segments|
  {
    seq(|segments|, k requires 0 <= k < |segments| => Written(document, segments[k]))
  }

  lemma {:induction false} CoverIsWhole(document: Text, segments: seq<Segment>, n: nat)
    requires Cover(segments, 0, |document|) && Inside(segments, |document|) && n <= |segments|
    ensures Join(Originals(document, segments)[..n]) == document[..if n == |segments| then |document| else segments[n].start]
    decreases n
  {
    hide Cover;
    var pieces := Originals(document, segments);
    if n == 0 {
      CoverEnds(segments, 0, |document|, 0);
    } else {
      CoverIsWhole(document, segments, n - 1);
      CoverEnds(segments, 0, |document|, n - 1);
      assert pieces[..n] == pieces[..n - 1] + [pieces[n - 1]];
      JoinGrow(pieces[..n - 1], pieces[n - 1]);
      var a, b := segments[n - 1].start, segments[n - 1].end;
      assert document[..b] == document[..a] + document[a..b];
    }
  }

  lemma {:induction false} CoverEnds(segments: seq<Segment>, from: nat, n: nat, k: nat)
    requires Cover(segments, from, n) && k <= |segments|
    ensures segments == [] ==> from == n
    ensures segments != [] ==> segments[0].start == from
    ensures k < |segments| ==> segments[k].end == if k + 1 < |segments| then segments[k + 1].start else n
  {
    if k > 0 { CoverEnds(segments[1..], segments[0].end, n, k - 1); }
  }

  /** One segment: text is searched with its references resolved, raw text as written, markup not at all. */
  method MaskSegment(document: Text, text: TextSyntax, rules: seq<Rule>, s: Segment) returns (piece: Text, hits: nat)
    requires text.Valid() && AllValid(rules) && s.start <= s.end <= |document|
    ensures Becomes(document, text, rules, s, piece, hits)
    ensures hits == 0 ==> piece == Written(document, s)
  {
    piece, hits := Written(document, s), 0;
    hide MaskedBy, AllValid, EntitiesIn;
    match s.kind {
      case Markup =>
      case Text =>
        var out, count, spans := MaskHtmlText(piece, text.references(piece), rules, EscapeText);
        assert MaskedWith(piece, text.references(piece), rules, EscapeText, out, count);
        piece, hits := out, count;
      case Raw =>
        NoEntities(piece, 0, 0);
        var out, count, spans := MaskHtmlText(piece, [], rules, RawSafe);
        assert MaskedWith(piece, [], rules, RawSafe, out, count);
        piece, hits := out, count;
    }
  }

  /** `mask_html_document`: the document is its segments in order, each of them what it becomes; without a hit it is
      returned as it is. */
  method MaskHtmlDocument(g: Grammar, text: TextSyntax, document: Text, rules: seq<Rule>)
    returns (out: Text, hits: nat, ghost segments: seq<Segment>, ghost pieces: seq<Text>, ghost counts: seq<nat>)
    requires g.Valid() && text.Valid() && AllValid(rules)
    ensures segments == Segments(g, document, 0, 0) && Cover(segments, 0, |document|) && Inside(segments, |document|)
    ensures |pieces| == |counts| == |segments| && out == Join(pieces) && hits == Sum(counts)
    ensures forall k :: 0 <= k < |segments| ==> Becomes(document, text, rules, segments[k], pieces[k], counts[k])
    ensures hits == 0 ==> out == document
  {
    hide *;
    var all := ScanSegments(g, document);
    segments := all;
    CoverInside(all, 0, |document|);
    out, hits, pieces, counts := [], 0, [], [];
    SumGrow([], 0);
    JoinNone<point>();
    BecomeNone(document, text, rules, all);
    for k := 0 to |all|
      invariant |pieces| == k && out == Join(pieces) && hits == Sum(counts)
      invariant BecomeUpto(document, text, rules, all, pieces, counts)
      invariant hits == 0 ==> pieces == Originals(document, all)[..k]
    {
      InsideAt(all, |document|, k);
      var piece, count := MaskSegment(document, text, rules, all[k]);
      BecomeGrow(document, text, rules, all, pieces, counts, piece, count);
      SumGrow(counts, count);
      JoinGrow(pieces, piece);
      OriginalAt(document, all, k);
      out := out + piece;
      hits := hits + count;
      pieces := pieces + [piece];
      counts := counts + [count];
    }
    BecomeAll(document, text, rules, all, pieces, counts);
    CoverIsWhole(document, all, |all|);
    assert document[..|document|] == document;
  }

  lemma {:induction false} InsideAt(segments: seq<Segment>, n: nat, k: nat)
    requires Inside(segments, n) && k < |segments|
    ensures segments[k].start <= segments[k].end <= n
  {
  }

  lemma {:induction false} OriginalAt(document: Text, segments: seq<Segment>, k: nat)
    requires Inside(segments, |document|) && k < |segments|
    ensures Originals(document, segments)[..k + 1] == Originals(document, segments)[..k] + [Written(document, segments[k])]
  {
  }

  ghost predicate BecomeUpto(document: Text, text: TextSyntax, rules: seq<Rule>, segments: seq<Segment>, pieces: seq<Text>,
                             counts: seq<nat>)
    requires text.Valid() && AllValid(rules)
  {
    && Inside(segments, |document|) && |pieces| == |counts| <= |segments|
    && forall k :: 0 <= k < |pieces| ==> Becomes(document, text, rules, segments[k], pieces[k], counts[k])
  }

  lemma {:induction false} BecomeNone(document: Text, text: TextSyntax, rules: seq<Rule>, segments: seq<Segment>)
    requires text.Valid() && AllValid(rules) && Inside(segments, |document|)
    ensures BecomeUpto(document, text, rules, segments, [], [])
  {
  }

  lemma {:induction false} BecomeGrow(document: Text, text: TextSyntax, rules: seq<Rule>, segments: seq<Segment>, pieces: seq<Text>,
                                      counts: seq<nat>, piece: Text, count: nat)
    requires text.Valid() && AllValid(rules) && BecomeUpto(document, text, rules, segments, pieces, counts) && |pieces| < |segments|
    requires segments[|pieces|].start <= segments[|pieces|].end <= |document|
    requires Becomes(document, text, rules, segments[|pieces|], piece, count)
    ensures BecomeUpto(document, text, rules, segments, pieces + [piece], counts + [count])
  {
    hide Becomes;
  }

  lemma {:induction false} BecomeAll(document: Text, text: TextSyntax, rules: seq<Rule>, segments: seq<Segment>, pieces: seq<Text>,
                                     counts: seq<nat>)
    requires text.Valid() && AllValid(rules) && BecomeUpto(document, text, rules, segments, pieces, counts)
    requires |pieces| == |segments|
    ensures Inside(segments, |document|) && |counts| == |segments|
    ensures forall k :: 0 <= k < |segments| ==> Becomes(document, text, rules, segments[k], pieces[k], counts[k])
  {
    hide Becomes;
  }

  // ---------------------------------------------------------------- what the document keeps

  /** A segment has no hit exactly if every character of its decoded text survives the rules; it then keeps its bytes. */
  lemma {:induction false} NothingHidden(segment: Text, entities: seq<Entity>, rules: seq<Rule>, escape: Text -> Text, out: Text,
                                         hits: nat)
    requires EntitiesIn(entities, 0, |segment|) && AllValid(rules) && MaskedWith(segment, entities, rules, escape, out, hits)
    ensures var decoded := Decoded(segment, entities, 0);
            && (hits == 0 <==> AllSurvive(decoded, rules, 0, |decoded|)) && (hits == 0 ==> out == segment)
  {
    var decoded := Decoded(segment, entities, 0);
    var spans := TheSpans(segment, entities, rules, escape, out, hits);
    hide *;
    if AllSurvive(decoded, rules, 0, |decoded|) {
      SurvivingIsApart(decoded, rules, spans, 0, |decoded|);
    } else if hits == 0 {
      NoSpansSurvive(decoded, rules);
    }
    if hits == 0 { NoEdits(segment, entities, rules, escape, out); }
  }

  lemma {:induction false} TheSpans(segment: Text, entities: seq<Entity>, rules: seq<Rule>, escape: Text -> Text, out: Text,
                                    hits: nat) returns (spans: seq<Edit<point>>)
    requires EntitiesIn(entities, 0, |segment|) && AllValid(rules) && MaskedWith(segment, entities, rules, escape, out, hits)
    ensures MaskedBy(segment, entities, rules, escape, spans, out) && hits == |spans|
    ensures SpansFor(Decoded(segment, entities, 0), rules, spans)
  {
    hide SpansFor, Decoded, Table, MapSpans, Replace, Ordered;
    spans :| MaskedBy(segment, entities, rules, escape, spans, out) && hits == |spans|;
  }

  lemma {:induction false} NoSpansSurvive(text: Text, rules: seq<Rule>)
    requires AllValid(rules) && SpansFor(text, rules, [])
    ensures AllSurvive(text, rules, 0, |text|)
  {
    hide Trace, Survives, Masked, Replace;
    assert forall i :: 0 <= i < |text| ==> !Covered<point>([], i);
  }

  lemma {:induction false} NoEdits(segment: Text, entities: seq<Entity>, rules: seq<Rule>, escape: Text -> Text, out: Text)
    requires EntitiesIn(entities, 0, |segment|) && AllValid(rules) && MaskedBy(segment, entities, rules, escape, [], out)
    ensures out == segment
  {
    hide SpansFor, Decoded, Table;
    assert segment[0..] == segment;
  }

  /** Markup, and every segment the rules leave alone, keep their bytes whatever happens elsewhere in the document. */
  lemma {:induction false} SegmentKept(document: Text, text: TextSyntax, rules: seq<Rule>, s: Segment, out: Text, hits: nat)
    requires s.start <= s.end <= |document| && text.Valid() && AllValid(rules)
    requires Becomes(document, text, rules, s, out, hits)
    ensures var piece := Written(document, s);
            var searched := if s.kind == Text then Decoded(piece, text.references(piece), 0) else piece;
            s.kind == Markup || AllSurvive(searched, rules, 0, |searched|) ==> out == piece && hits == 0
  {
    hide AllSurvive, MaskedWith;
    var piece := Written(document, s);
    if s.kind == Text {
      NothingHidden(piece, text.references(piece), rules, EscapeText, out, hits);
    } else if s.kind == Raw {
      NothingHidden(piece, [], rules, RawSafe, out, hits);
      assert Decoded(piece, [], 0) == piece[0..] == piece;
    }
  }

  lemma {:induction false} MapMasks(table: seq<Place>, spans: seq<Edit<point>>, escape: Text -> Text, last: nat, k: nat)
    requires DisjointSpans(spans, |table|) && k < |spans|
    ensures MapSpans(table, spans, escape, last)[k].mask == escape(spans[k].mask)
    decreases |spans|
  {
    RestSpans(spans, |table|);
    if k > 0 { MapMasks(table, spans[1..], escape, Max(table[spans[0].end - 1].end, last), k - 1); }
  }

  /** A comment or CDATA section that is not closed early still is not when masks that fit are written into it. */
  lemma {:induction false} RawStaysOpen(segment: Text, rules: seq<Rule>, spans: seq<Edit<point>>, out: Text, q: Text)
    requires EntitiesIn([], 0, |segment|) && AllValid(rules) && MaskedBy(segment, [], rules, RawSafe, spans, out)
    requires Closes(q) && Closer(q) && Free(segment, q) && forall k :: 0 <= k < |spans| ==> Fits(spans[k].mask, q)
    ensures Free(out, q)
  {
    hide SpansFor, Decoded, Table, MapSpans, Replace, Ordered, RawSafe, Fits, Free;
    var table := Table([], 0, |segment|);
    var edits := MapSpans(table, spans, RawSafe, 0);
    forall k | 0 <= k < |edits|
      ensures Free(edits[k].mask, q) && Fits(edits[k].mask, q)
    {
      MapMasks(table, spans, RawSafe, 0, k);
      RawSafeClosesNothing(spans[k].mask);
      RawSafeFits(spans[k].mask, q);
    }
    ReplaceStaysFree(segment, edits, 0, q);
  }

  /** Neither is the content of a script or style when masks that do not blend into its closing tag are written into it,
      whatever other tags it holds. */
  lemma {:induction false} ScriptStaysOpen(segment: Text, rules: seq<Rule>, spans: seq<Edit<point>>, out: Text, c: Closing)
    requires EntitiesIn([], 0, |segment|) && AllValid(rules) && MaskedBy(segment, [], rules, RawSafe, spans, out)
    requires c.Valid() && Unclosed(c, segment) && forall k :: 0 <= k < |spans| ==> !Blends(c, spans[k].mask)
    ensures Unclosed(c, out)
  {
    hide SpansFor, Decoded, Table, MapSpans, Replace, Ordered, RawSafe, Unclosed, Blends, NoEndTag;
    var table := Table([], 0, |segment|);
    var edits := MapSpans(table, spans, RawSafe, 0);
    forall k | 0 <= k < |edits|
      ensures NoEndTag(edits[k].mask) && !Blends(c, edits[k].mask)
    {
      MapMasks(table, spans, RawSafe, 0, k);
      RawSafeClosesNothing(spans[k].mask);
      NoEndTagIs(RawSafe(spans[k].mask));
      RawSafeBlends(c, spans[k].mask);
    }
    ReplaceStaysUnclosed(c, segment, edits, 0);
  }

  /** Text in which no tag opens still has none when bland masks are written into it. */
  lemma {:induction false} TextStaysTagless(segment: Text, entities: seq<Entity>, rules: seq<Rule>, spans: seq<Edit<point>>,
                                            out: Text)
    requires EntitiesIn(entities, 0, |segment|) && AllValid(rules)
    requires MaskedBy(segment, entities, rules, EscapeText, spans, out)
    requires Tagless(segment) && forall k :: 0 <= k < |spans| ==> Bland(spans[k].mask)
    ensures Tagless(out)
  {
    hide SpansFor, Decoded, Table, MapSpans, Replace, Ordered, EscapeText, Tagless, Bland;
    var table := Table(entities, 0, |segment|);
    var edits := MapSpans(table, spans, EscapeText, 0);
    forall k | 0 <= k < |edits|
      ensures LT !in edits[k].mask && Bland(edits[k].mask)
    {
      MapMasks(table, spans, EscapeText, 0, k);
      EscapedHoldsNoTag(spans[k].mask);
      EscapedBland(spans[k].mask);
    }
    ReplaceStaysTagless(segment, edits, 0);
  }

  /** A text segment of the scan is such a text: the character behind its last one is no letter or mark that opens a tag. */
  lemma {:induction false} TextIsTagless(document: Text, segments: seq<Segment>, s: Segment)
    requires PlainText(document, segments) && s in segments && s.kind == Text
    ensures s.start < s.end <= |document| && Tagless(Written(document, s))
  {
    forall i | 0 <= i && i + 1 < s.end - s.start && Written(document, s)[i] == LT
      ensures !Opens(Written(document, s)[i + 1])
    {
      assert !TagStart(document, s.start + i);
    }
  }
}
