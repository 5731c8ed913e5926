/** Splitting an HTML document into text, raw text and markup (files.py `_html_segments`). */
module HtmlSegments {
  import opened Base
  import opened HtmlScan
  import opened HtmlClosing

  const BANG: point := 33
  const QUESTION: point := 63
  const OPEN_BRACKET: point := 91

  /** `<!--` and `-->`. */
  const COMMENT_OPEN: Text := [LT, BANG, DASH, DASH]
  const COMMENT_CLOSE: Text := [DASH, DASH, GT]

  /** `<![CDATA[` and `]]>`. */
  const CDATA_OPEN: Text := [LT, BANG, OPEN_BRACKET, 67, 68, 65, 84, 65, OPEN_BRACKET]
  const CDATA_CLOSE: Text := [CLOSE_BRACKET, CLOSE_BRACKET, GT]

  datatype Kind = Text | Raw | Markup

  datatype Segment = Segment(start: nat, end: nat, kind: Kind)

  /** What the regular expressions have as white space and as equal up to case, and the start of `<script` or `<style` with
      the end of that name. */
  datatype Grammar = Grammar(
    space: point -> bool,
    same: (point, point) -> bool,
    rawName: (Text, nat) -> Option<nat>)
  {
    ghost predicate Valid() {
      forall d, lt: nat :: rawName(d, lt).Some? ==>
        lt + 6 <= rawName(d, lt).value <= |d| && Closing(d[lt + 1..rawName(d, lt).value], same, space).Valid()
    }
  }

  /** `document.startswith(text, at)`. */
  predicate StartsWith(document: Text, text: Text, at: nat) {
    at + |text| <= |document| && document[at..at + |text|] == text
  }

  /** `document.find(text, from)`. */
  function FindText(document: Text, text: Text, from: nat): (at: Option<nat>)
    requires from <= |document|
    ensures at.Some? ==> from <= at.value && StartsWith(document, text, at.value)
    decreases |document| - from
  {
    if StartsWith(document, text, from) then Some(from)
    else if from == |document| then None
    else FindText(document, text, from + 1)
  }

  /** An ASCII letter. */
  predicate Letter(c: point) { 65 <= c <= 90 || 97 <= c <= 122 }

  /** What opens a tag behind `<`. */
  predicate Opens(c: point) { Letter(c) || c == SLASH || c == BANG || c == QUESTION }

  /** A `<` opens a tag before a letter, `/`, `!` or `?`. At the very end of the document it counts as one as well: the
      empty string that follows it is "in" the list of marks. */
  predicate TagStart(document: Text, at: nat)
    requires at < |document|
  {
    document[at] == LT && (at + 1 == |document| || Opens(document[at + 1]))
  }

  // ---------------------------------------------------------------- one construct

  /** A comment or CDATA section: its marks are markup, what is between them is raw. */
  function Marked(document: Text, lt: nat, opener: Text, closer: Text): (r: (seq<Segment>, nat))
    requires opener != [] && StartsWith(document, opener, lt)
    ensures lt < r.1 <= |document|
  {
    var inside := lt + |opener|;
    match FindText(document, closer, inside)
    case None => ([Segment(lt, inside, Markup), Segment(inside, |document|, Raw)], |document|)
    case Some(close) =>
      ([Segment(lt, inside, Markup), Segment(inside, close, Raw), Segment(close, close + |closer|, Markup)],
       close + |closer|)
  }

  /** The closing tag that fits the opening one at `lt`. */
  function ClosingOf(g: Grammar, document: Text, lt: nat, nameEnd: nat): Closing
    requires lt < nameEnd <= |document|
  {
    Closing(document[lt + 1..nameEnd], g.same, g.space)
  }

  /** A script or style element: its tags are markup, its content is raw. */
  function RawElement(g: Grammar, document: Text, lt: nat, nameEnd: nat): (r: (seq<Segment>, nat))
    requires g.Valid() && lt < nameEnd <= |document|
    ensures lt < r.1 <= |document|
  {
    var openEnd := TagEnd(document, g.space, nameEnd);
    match FindClosing(ClosingOf(g, document, lt, nameEnd), document, openEnd)
    case None =>
      ([Segment(lt, openEnd, Markup)]
       + if openEnd < |document| then [Segment(openEnd, |document|, Raw)] else [], |document|)
    case Some(close) =>
      ([Segment(lt, openEnd, Markup)]
       + (if openEnd < close.0 then [Segment(openEnd, close.0, Raw)] else [])
       + [Segment(close.0, close.1, Markup)], close.1)
  }

  function Construct(g: Grammar, document: Text, lt: nat): (r: (seq<Segment>, nat))
    requires g.Valid() && lt < |document|
    ensures lt < r.1 <= |document|
  {
    if StartsWith(document, COMMENT_OPEN, lt) then Marked(document, lt, COMMENT_OPEN, COMMENT_CLOSE)
    else if StartsWith(document, CDATA_OPEN, lt) then Marked(document, lt, CDATA_OPEN, CDATA_CLOSE)
    else match g.rawName(document, lt)
      case Some(nameEnd) => RawElement(g, document, lt, nameEnd)
      case None =>
        var end := TagEnd(document, g.space, lt + 1);
        ([Segment(lt, end, Markup)], end)
  }

  function Flush(textStart: nat, end: nat): seq<Segment> {
    if textStart < end then [Segment(textStart, end, Text)] else []
  }

  /** The segments from `pos` on, when text since `textStart` is still open. */
  function Segments(g: Grammar, document: Text, pos: nat, textStart: nat): seq<Segment>
    requires g.Valid() && textStart <= pos <= |document|
    decreases |document| - pos
  {
    match Find(document, LT, pos)
    case None => Flush(textStart, |document|)
    case Some(lt) =>
      if !TagStart(document, lt) then Segments(g, document, lt + 1, textStart)
      else
        var (own, end) := Construct(g, document, lt);
        Flush(textStart, lt) + own + Segments(g, document, end, end)
  }

  // ---------------------------------------------------------------- nothing is lost

  /** The segments follow one another from `from` to `upto`. */
  ghost predicate Cover(segments: seq<Segment>, from: nat, upto: nat) {
    if segments == [] then from == upto
    else from == segments[0].start && segments[0].start <= segments[0].end && Cover(segments[1..], segments[0].end, upto)
  }

  lemma {:induction false} CoverJoin(a: seq<Segment>, b: seq<Segment>, from: nat, mid: nat, upto: nat)
    requires Cover(a, from, mid) && Cover(b, mid, upto)
    ensures Cover(a + b, from, upto)
  {
    if a == [] {
      assert a + b == b;
    } else {
      assert (a + b)[0] == a[0] && (a + b)[1..] == a[1..] + b;
      CoverJoin(a[1..], b, a[0].end, mid, upto);
    }
  }

  lemma {:induction false} CoverOne(start: nat, end: nat, kind: Kind)
    requires start <= end
    ensures Cover([Segment(start, end, kind)], start, end)
  {
  }

  lemma {:induction false} CoverFlush(textStart: nat, end: nat)
    requires textStart <= end
    ensures Cover(Flush(textStart, end), textStart, end)
  {
  }

  lemma {:induction false} MarkedCovers(document: Text, lt: nat, opener: Text, closer: Text)
    requires opener != [] && StartsWith(document, opener, lt)
    ensures var r := Marked(document, lt, opener, closer); Cover(r.0, lt, r.1)
  {
    hide Cover, FindText;
    var inside := lt + |opener|;
    CoverOne(lt, inside, Markup);
    var close := FindText(document, closer, inside);
    var end := if close.Some? then close.value else |document|;
    CoverOne(inside, end, Raw);
    CoverJoin([Segment(lt, inside, Markup)], [Segment(inside, end, Raw)], lt, inside, end);
    assert [Segment(lt, inside, Markup)] + [Segment(inside, end, Raw)] == [Segment(lt, inside, Markup), Segment(inside, end, Raw)];
    if close.Some? {
      CoverOne(end, end + |closer|, Markup);
      CoverJoin([Segment(lt, inside, Markup), Segment(inside, end, Raw)], [Segment(end, end + |closer|, Markup)], lt, end,
                end + |closer|);
      assert [Segment(lt, inside, Markup), Segment(inside, end, Raw)] + [Segment(end, end + |closer|, Markup)]
          == Marked(document, lt, opener, closer).0;
    }
  }

  lemma {:induction false} RawElementCovers(g: Grammar, document: Text, lt: nat, nameEnd: nat)
    requires g.Valid() && lt < nameEnd <= |document|
    ensures var r := RawElement(g, document, lt, nameEnd); Cover(r.0, lt, r.1)
  {
    hide Cover, TagEnd;
    var openEnd := TagEnd(document, g.space, nameEnd);
    var close := FindClosing(ClosingOf(g, document, lt, nameEnd), document, openEnd);
    var end := if close.Some? then close.value.0 else |document|;
    var content := if openEnd < end then [Segment(openEnd, end, Raw)] else [];
    CoverOne(lt, openEnd, Markup);
    CoverOne(openEnd, end, Raw);
    CoverNothing(openEnd);
    CoverJoin([Segment(lt, openEnd, Markup)], content, lt, openEnd, end);
    if close.Some? {
      CoverOne(end, close.value.1, Markup);
      CoverJoin([Segment(lt, openEnd, Markup)] + content, [Segment(end, close.value.1, Markup)], lt, end, close.value.1);
    }
  }

  lemma {:induction false} CoverNothing(at: nat)
    ensures Cover([], at, at)
  {
  }

  lemma {:induction false} ConstructCovers(g: Grammar, document: Text, lt: nat)
    requires g.Valid() && lt < |document|
    ensures var r := Construct(g, document, lt); Cover(r.0, lt, r.1) && forall s :: s in r.0 ==> s.kind != Text
  {
    hide Cover, TagEnd, FindText;
    if StartsWith(document, COMMENT_OPEN, lt) {
      MarkedCovers(document, lt, COMMENT_OPEN, COMMENT_CLOSE);
    } else if StartsWith(document, CDATA_OPEN, lt) {
      MarkedCovers(document, lt, CDATA_OPEN, CDATA_CLOSE);
    } else if g.rawName(document, lt).Some? {
      RawElementCovers(g, document, lt, g.rawName(document, lt).value);
    } else {
      CoverOne(lt, TagEnd(document, g.space, lt + 1), Markup);
    }
  }

  /** Text is never empty and holds no place where a tag could start. */
  ghost predicate PlainText(document: Text, segments: seq<Segment>) {
    forall s :: s in segments && s.kind == Text ==>
      s.start < s.end <= |document| && forall i :: s.start <= i < s.end ==> !TagStart(document, i)
  }

  ghost predicate NoTag(document: Text, from: nat, upto: nat) {
    forall i :: from <= i < upto && i < |document| ==> !TagStart(document, i)
  }

  lemma {:induction false} FlushPlain(document: Text, from: nat, upto: nat)
    requires from <= upto <= |document| && NoTag(document, from, upto)
    ensures PlainText(document, Flush(from, upto))
  {
    hide TagStart;
  }

  lemma {:induction false} PlainJoin(document: Text, a: seq<Segment>, b: seq<Segment>)
    requires PlainText(document, a) && PlainText(document, b)
    ensures PlainText(document, a + b)
  {
    hide TagStart;
  }

  lemma {:induction false} NotText(document: Text, a: seq<Segment>)
    requires forall s :: s in a ==> s.kind != Text
    ensures PlainText(document, a)
  {
  }

  lemma {:induction false} NoTagUpto(document: Text, from: nat, pos: nat, upto: nat)
    requires NoTag(document, from, pos) && from <= pos <= upto <= |document|
    requires Find(document, LT, pos) == if upto < |document| then Some(upto) else None
    ensures NoTag(document, from, upto)
  {
    hide Find;
    FindIsFirst(document, LT, pos);
  }

  lemma {:induction false} FoundAtEnd(document: Text, pos: nat)
    requires pos <= |document|
    ensures var at := Find(document, LT, pos); at.None? || at.value < |document|
  {
  }

  lemma {:induction false} NoTagMore(document: Text, from: nat, lt: nat)
    requires lt < |document| && from <= lt && NoTag(document, from, lt) && !TagStart(document, lt)
    ensures NoTag(document, from, lt + 1)
  {
    hide TagStart;
  }

  /** The segments cover the document exactly, and no tag hides in what is taken for text. */
  lemma {:induction false} SegmentsCover(g: Grammar, document: Text, pos: nat, textStart: nat)
    requires g.Valid() && textStart <= pos <= |document| && NoTag(document, textStart, pos)
    ensures Cover(Segments(g, document, pos, textStart), textStart, |document|)
    ensures PlainText(document, Segments(g, document, pos, textStart))
    decreases |document| - pos
  {
    hide *;
    SegmentsStep(g, document, pos, textStart);
    var at := Find(document, LT, pos);
    FoundAtEnd(document, pos);
    if at.None? {
      NoTagUpto(document, textStart, pos, |document|);
      CoverFlush(textStart, |document|);
      FlushPlain(document, textStart, |document|);
    } else {
      var lt := at.value;
      NoTagUpto(document, textStart, pos, lt);
      if !TagStart(document, lt) {
        NoTagMore(document, textStart, lt);
        SegmentsCover(g, document, lt + 1, textStart);
      } else {
        var (own, end) := Construct(g, document, lt);
        var rest := Segments(g, document, end, end);
        NoTagHere(document, end);
        SegmentsCover(g, document, end, end);
        ConstructCovers(g, document, lt);
        NotText(document, own);
        CoverFlush(textStart, lt);
        FlushPlain(document, textStart, lt);
        CoverJoin(Flush(textStart, lt), own, textStart, lt, end);
        CoverJoin(Flush(textStart, lt) + own, rest, textStart, end, |document|);
        PlainJoin(document, Flush(textStart, lt), own);
        PlainJoin(document, Flush(textStart, lt) + own, rest);
      }
    }
  }

  lemma {:induction false} NoTagHere(document: Text, at: nat)
    ensures NoTag(document, at, at)
  {
  }

  lemma {:induction false} SegmentsStep(g: Grammar, document: Text, pos: nat, textStart: nat)
    requires g.Valid() && textStart <= pos <= |document|
    ensures var at := Find(document, LT, pos);
            && (at.Some? ==> pos <= at.value < |document| && Construct(g, document, at.value).1 <= |document|
                             && at.value < Construct(g, document, at.value).1)
            && Segments(g, document, pos, textStart)
                 == if at.None? then Flush(textStart, |document|)
                    else if !TagStart(document, at.value) then Segments(g, document, at.value + 1, textStart)
                    else
                      var c := Construct(g, document, at.value);
                      Flush(textStart, at.value) + c.0 + Segments(g, document, c.1, c.1)
  {
    hide Construct, Flush, Find, TagStart;
  }

  // ---------------------------------------------------------------- the scan

  /** The construct at `lt`, with one scanner for the whole document. */
  method ScanConstruct(g: Grammar, document: Text, lt: nat, scanner: TagScanner) returns (own: seq<Segment>, end: nat)
    requires g.Valid() && lt < |document| && scanner.Valid() && scanner.document == document && scanner.space == g.space
    modifies scanner
    ensures scanner.Valid() && (own, end) == Construct(g, document, lt)
  {
    hide TagEnd, FindText, Cover;
    if StartsWith(document, COMMENT_OPEN, lt) {
      return Marked(document, lt, COMMENT_OPEN, COMMENT_CLOSE).0, Marked(document, lt, COMMENT_OPEN, COMMENT_CLOSE).1;
    }
    if StartsWith(document, CDATA_OPEN, lt) {
      return Marked(document, lt, CDATA_OPEN, CDATA_CLOSE).0, Marked(document, lt, CDATA_OPEN, CDATA_CLOSE).1;
    }
    var raw := g.rawName(document, lt);
    if raw.None? {
      end := scanner.End(lt + 1);
      return [Segment(lt, end, Markup)], end;
    }
    var openEnd := scanner.End(raw.value);
    var closing := FindClosing(ClosingOf(g, document, lt, raw.value), document, openEnd);
    own := [Segment(lt, openEnd, Markup)];
    var contentEnd := if closing.None? then |document| else closing.value.0;
    var content: seq<Segment> := [];
    if openEnd < contentEnd { content := [Segment(openEnd, contentEnd, Raw)]; }
    own := own + content;
    end := |document|;
    if closing.Some? {
      own := own + [Segment(closing.value.0, closing.value.1, Markup)];
      end := closing.value.1;
    }
    assert Construct(g, document, lt) == RawElement(g, document, lt, raw.value);
  }

  /** `_html_segments`: one pass over the document. */
  method ScanSegments(g: Grammar, document: Text) returns (segments: seq<Segment>)
    requires g.Valid()
    ensures segments == Segments(g, document, 0, 0)
    ensures Cover(segments, 0, |document|) && PlainText(document, segments)
  {
    hide *;
    var scanner := new TagScanner(document, g.space);
    segments := [];
    var pos: nat, textStart: nat := 0, 0;
    assert [] + Segments(g, document, 0, 0) == Segments(g, document, 0, 0);
    var done := false;
    while pos < |document| && !done
      invariant textStart <= pos <= |document| && scanner.Valid()
      invariant scanner.document == document && scanner.space == g.space && fresh(scanner)
      invariant segments + Segments(g, document, pos, textStart) == Segments(g, document, 0, 0)
      invariant done ==> Segments(g, document, pos, textStart) == Flush(textStart, |document|)
      decreases |document| - pos, !done
    {
      SegmentsStep(g, document, pos, textStart);
      var at := Find(document, LT, pos);
      if at.None? {
        done := true;
      } else if !TagStart(document, at.value) {
        pos := at.value + 1;
      } else {
        var own, end := ScanConstruct(g, document, at.value, scanner);
        Assoc4(segments, Flush(textStart, at.value), own, Segments(g, document, end, end));
        segments := segments + Flush(textStart, at.value) + own;
        pos := end;
        textStart := end;
      }
    }
    if !done { LastSegment(g, document, textStart); }
    segments := segments + Flush(textStart, |document|);
    NoTagHere(document, 0);
    SegmentsCover(g, document, 0, 0);
  }

  lemma {:induction false} LastSegment(g: Grammar, document: Text, textStart: nat)
    requires g.Valid() && textStart <= |document|
    ensures Segments(g, document, |document|, textStart) == Flush(textStart, |document|)
  {
    assert Find(document, LT, |document|) == None;
  }

  // ---------------------------------------------------------------- the documented reading

  /** A `<` opens a tag only before a letter, `/`, `!` or `?`; something has to follow it. */
  predicate DocumentedStart(document: Text, at: nat)
    requires at < |document|
  {
    at + 1 < |document| && TagStart(document, at)
  }

  /** The segments, if a `<` were read as documented. */
  function DocumentedSegments(g: Grammar, document: Text, pos: nat, textStart: nat): seq<Segment>
    requires g.Valid() && textStart <= pos <= |document|
    decreases |document| - pos
  {
    match Find(document, LT, pos)
    case None => Flush(textStart, |document|)
    case Some(lt) =>
      if !DocumentedStart(document, lt) then DocumentedSegments(g, document, lt + 1, textStart)
      else
        var (own, end) := Construct(g, document, lt);
        Flush(textStart, lt) + own + DocumentedSegments(g, document, end, end)
  }

  /** The document ends with a `<` that is read as text. */
  predicate EndsWithOpen(document: Text, segments: seq<Segment>) {
    && document != [] && document[|document| - 1] == LT
    && segments != [] && segments[|segments| - 1].kind == Text && segments[|segments| - 1].end == |document|
  }

  /** `code` is `doc` with the `<` at the end taken from the last text and called markup. */
  ghost predicate LastCutOff(document: Text, doc: seq<Segment>, code: seq<Segment>)
    requires EndsWithOpen(document, doc)
  {
    var front, last, n := doc[..|doc| - 1], doc[|doc| - 1], |document|;
    last.start < n && code == front + Flush(last.start, n - 1) + [Segment(n - 1, n, Markup)]
  }

  /** The scan departs from the documented reading exactly if that reading ends with a `<` as text; and then only in that
      last character, which it calls markup and so does not search. */
  lemma {:induction false} DepartsAtTheEnd(g: Grammar, document: Text, pos: nat, textStart: nat)
    requires g.Valid() && textStart <= pos <= |document| && (pos < |document| || textStart == pos)
    ensures var doc, code := DocumentedSegments(g, document, pos, textStart), Segments(g, document, pos, textStart);
            && (code == doc <==> !EndsWithOpen(document, doc))
            && (EndsWithOpen(document, doc) ==> LastCutOff(document, doc, code))
    decreases |document| - pos
  {
    hide *;
    SegmentsStep(g, document, pos, textStart);
    DocumentedStep(g, document, pos, textStart);
    var at, n := Find(document, LT, pos), |document|;
    if at.None? {
      NoneAtTheEnd(document, pos, textStart);
    } else {
      StartsAgree(document, at.value);
      if !TagStart(document, at.value) {
        DepartsAtTheEnd(g, document, at.value + 1, textStart);
      } else if !DocumentedStart(document, at.value) {
        LastOpen(g, document, textStart);
        DocumentedStep(g, document, n, textStart);
        SegmentsStep(g, document, n, n);
        NothingAtTheEnd(document, pos);
      } else {
        var (own, end) := Construct(g, document, at.value);
        DepartsAtTheEnd(g, document, end, end);
        ConstructCovers(g, document, at.value);
        ConstructOwns(g, document, at.value);
        BehindConstruct(document, Flush(textStart, at.value), own, DocumentedSegments(g, document, end, end),
                        Segments(g, document, end, end));
      }
    }
  }

  lemma {:induction false} DocumentedStep(g: Grammar, document: Text, pos: nat, textStart: nat)
    requires g.Valid() && textStart <= pos <= |document|
    ensures var at := Find(document, LT, pos);
            && (at.Some? ==> pos <= at.value < |document| && Construct(g, document, at.value).1 <= |document|
                             && at.value < Construct(g, document, at.value).1)
            && DocumentedSegments(g, document, pos, textStart)
                 == if at.None? then Flush(textStart, |document|)
                    else if !DocumentedStart(document, at.value) then DocumentedSegments(g, document, at.value + 1, textStart)
                    else
                      var c := Construct(g, document, at.value);
                      Flush(textStart, at.value) + c.0 + DocumentedSegments(g, document, c.1, c.1)
  {
    hide Construct, Flush, Find, DocumentedStart;
  }

  lemma {:induction false} StartsAgree(document: Text, at: nat)
    requires at < |document| && document[at] == LT
    ensures TagStart(document, at) && !DocumentedStart(document, at) <==> at + 1 == |document|
    ensures DocumentedStart(document, at) ==> TagStart(document, at)
  {
  }

  lemma {:induction false} NoneAtTheEnd(document: Text, pos: nat, textStart: nat)
    requires textStart <= pos <= |document| && Find(document, LT, pos).None? && (pos < |document| || textStart == pos)
    ensures !EndsWithOpen(document, Flush(textStart, |document|))
  {
    FindIsFirst(document, LT, pos);
  }

  lemma {:induction false} NothingAtTheEnd(document: Text, pos: nat)
    ensures Find(document, LT, |document|) == None && Flush(|document|, |document|) == []
  {
  }

  /** What becomes of a `<` at the very end. */
  lemma {:induction false} LastOpen(g: Grammar, document: Text, textStart: nat)
    requires g.Valid() && document != [] && document[|document| - 1] == LT && textStart < |document|
    ensures var n := |document|;
            && Construct(g, document, n - 1) == ([Segment(n - 1, n, Markup)], n)
            && EndsWithOpen(document, Flush(textStart, n))
            && LastCutOff(document, Flush(textStart, n), Flush(textStart, n - 1) + [Segment(n - 1, n, Markup)] + [])
            && Flush(textStart, n - 1) + [Segment(n - 1, n, Markup)] + [] != Flush(textStart, n)
  {
    var n, code := |document|, Flush(textStart, |document| - 1) + [Segment(|document| - 1, |document|, Markup)] + [];
    assert code[|code| - 1].kind == Markup;
    assert code == [] + Flush(textStart, n - 1) + [Segment(n - 1, n, Markup)];
    assert Flush(textStart, n)[..0] == [];
  }

  lemma {:induction false} ConstructOwns(g: Grammar, document: Text, lt: nat)
    requires g.Valid() && lt < |document|
    ensures Construct(g, document, lt).0 != []
  {
    hide TagEnd, FindText;
  }

  /** What comes before the rest does not matter. */
  lemma {:induction false} BehindConstruct(document: Text, flush: seq<Segment>, own: seq<Segment>, doc: seq<Segment>, code: seq<Segment>)
    requires own != [] && (forall s :: s in own ==> s.kind != Text)
    requires (code == doc <==> !EndsWithOpen(document, doc)) && (EndsWithOpen(document, doc) ==> LastCutOff(document, doc, code))
    ensures var doc', code' := flush + own + doc, flush + own + code;
            && (code' == doc' <==> !EndsWithOpen(document, doc'))
            && (EndsWithOpen(document, doc') ==> LastCutOff(document, doc', code'))
  {
    hide Flush;
    var front, doc', code' := flush + own, flush + own + doc, flush + own + code;
    assert doc'[|front|..] == doc && code'[|front|..] == code;
    if doc == [] {
      assert doc'[|doc'| - 1] == own[|own| - 1];
    } else {
      assert doc'[|doc'| - 1] == doc[|doc| - 1];
      assert doc'[..|doc'| - 1] == front + doc[..|doc| - 1];
      if EndsWithOpen(document, doc) {
        var last, n := doc[|doc| - 1], |document|;
        assert code' == doc'[..|doc'| - 1] + Flush(last.start, n - 1) + [Segment(n - 1, n, Markup)];
      }
    }
  }

  /** The document `a<`: its last character is not text, as it would be by the documentation. */
  lemma {:induction false} OpenAtTheEnd(g: Grammar)
    requires g.Valid()
    ensures var document: Text := [97, LT];
            && Segments(g, document, 0, 0) == [Segment(0, 1, Text), Segment(1, 2, Markup)]
            && DocumentedSegments(g, document, 0, 0) == [Segment(0, 2, Text)]
  {
    var document: Text := [97, LT];
    assert Find(document, LT, 0) == Find(document, LT, 1) == Some(1);
    assert Find(document, LT, 2) == None;
    SegmentsStep(g, document, 0, 0);
    SegmentsStep(g, document, 2, 2);
    DocumentedStep(g, document, 0, 0);
    DocumentedStep(g, document, 2, 0);
    LastOpen(g, document, 0);
  }
}
