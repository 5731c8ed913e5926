/** Which characters of an HTML document are searched (files.py `_html_segments`), read off the document itself. */
module HtmlParts {
  import opened Base
  import opened HtmlScan
  import opened HtmlClosing
  import opened HtmlSegments

  /** How far a construct reaches: a tag alone, or one that holds characters to be searched at `start..end`. */
  datatype Extent = Tag(next: nat) | Holds(start: nat, end: nat, next: nat)

  ghost function Between(document: Text, from: nat, closer: Text): Extent
    requires from <= |document|
  {
    match FindText(document, closer, from)
    case Some(at) => Holds(from, at, at + |closer|)
    case None => Holds(from, |document|, |document|)
  }

  /** The comment, CDATA section, script, style or other tag that opens at `lt`. */
  ghost function ExtentOf(g: Grammar, document: Text, lt: nat): (x: Extent)
    requires g.Valid() && lt < |document|
    ensures lt < x.next <= |document| && (x.Holds? ==> lt < x.start <= x.end <= x.next)
  {
    if StartsWith(document, COMMENT_OPEN, lt) then Between(document, lt + 4, COMMENT_CLOSE)
    else if StartsWith(document, CDATA_OPEN, lt) then Between(document, lt + 9, CDATA_CLOSE)
    else match g.rawName(document, lt)
      case None => Tag(TagEnd(document, g.space, lt + 1))
      case Some(nameEnd) =>
        var from := TagEnd(document, g.space, nameEnd);
        match FindClosing(ClosingOf(g, document, lt, nameEnd), document, from)
        case Some(at) => Holds(from, at.0, at.1)
        case None => Holds(from, |document|, |document|)
  }

  ghost function Codes(s: string): Text
    requires forall i :: 0 <= i < |s| ==> s[i] as int < 128
  {
    seq(|s|, i requires 0 <= i < |s| => s[i] as int)
  }

  lemma {:induction false} MarksSay()
    ensures COMMENT_OPEN == Codes("<!--") && COMMENT_CLOSE == Codes("-->")
    ensures CDATA_OPEN == Codes("<![CDATA[") && CDATA_CLOSE == Codes("]]>")
  {
  }

  /** `b` is the first place from `a` on at which `found` holds and `e` what comes behind it, or both are the end. */
  ghost predicate FirstOf(found: nat -> Option<nat>, n: nat, a: nat, b: nat, e: nat) {
    && a <= b && (forall i: nat :: a <= i < b ==> found(i).None?)
    && (found(b) == Some(e) || (b == e == n && forall i: nat :: a <= i ==> found(i).None?))
  }

  ghost function MarkAt(document: Text, mark: Text): nat -> Option<nat> {
    (i: nat) => if StartsWith(document, mark, i) then Some(i + |mark|) else None
  }

  /** The closing tag `</`, the letters `name` in any case, white space, `>` lies at `i..end`. */
  ghost predicate ClosesAt(c: Closing, document: Text, i: nat, end: nat) {
    && i + 3 + |c.name| <= end <= |document|
    && document[i] == '<' as int && document[i + 1] == '/' as int && document[end - 1] == '>' as int
    && (forall k :: 0 <= k < |c.name| ==> c.same(c.name[k], document[i + 2 + k]))
    && (forall k :: i + 2 + |c.name| <= k < end - 1 ==> c.space(document[k]))
  }

  /** The rest of the head from its `j`-th character on lies at `i`, and then come white space and the last character. */
  ghost predicate RestAt(c: Closing, document: Text, i: nat, j: nat, end: nat)
    requires j <= |c.Head()|
  {
    var behind := i + (|c.Head()| - j);
    && behind < end <= |document| && document[end - 1] == GT
    && (forall p :: i <= p < behind ==> c.Takes(j + (p - i), document[p]))
    && (forall p :: behind <= p < end - 1 ==> c.space(document[p]))
  }

  lemma {:induction false} GoesIsRest(c: Closing, document: Text, i: nat, j: nat, end: nat)
    requires c.Valid() && j <= |c.Head()|
    ensures Goes(c, document, i, j) == Some(end) <==> RestAt(c, document, i, j, end)
    decreases |document| - i
  {
    GtIsNoSpace(c);
    if i < |document| {
      if j < |c.Head()| {
        GoesIsRest(c, document, i + 1, j + 1, end);
      } else if document[i] != GT {
        GoesIsRest(c, document, i + 1, j, end);
      }
    }
  }

  lemma {:induction false} GtIsNoSpace(c: Closing)
    requires c.Valid()
    ensures !c.space(GT)
  {
    assert Mark(GT);
  }

  /** The matching of the regular expression for the closing tag, said without it. */
  lemma {:induction false} GoesExactly(c: Closing, document: Text, i: nat, end: nat)
    requires c.Valid()
    ensures Goes(c, document, i, 0) == Some(end) <==> ClosesAt(c, document, i, end)
  {
    hide Goes;
    GoesIsRest(c, document, i, 0, end);
    var head := c.Head();
    assert |head| == 2 + |c.name| && head[0] == LT && head[1] == SLASH;
    assert forall k :: 0 <= k < |c.name| ==> head[k + 2] == c.name[k];
    if RestAt(c, document, i, 0, end) {
      assert c.Takes(0, document[i]) && c.Takes(1, document[i + 1]);
      forall k | 0 <= k < |c.name|
        ensures c.same(c.name[k], document[i + 2 + k])
      {
        assert c.Takes(2 + k, document[i + (2 + k)]);
      }
    }
    if ClosesAt(c, document, i, end) {
      forall p | i <= p < i + |head|
        ensures c.Takes(p - i, document[p])
      {
        if p >= i + 2 { assert c.same(c.name[p - i - 2], document[i + 2 + (p - i - 2)]); }
      }
    }
  }

  ghost function TagAt(c: Closing, document: Text): nat -> Option<nat> {
    (i: nat) => Goes(c, document, i, 0)
  }

  lemma {:induction false} MarkFirst(document: Text, mark: Text, from: nat, k: nat)
    requires from <= k <= |document| && mark != [] && forall i: nat :: from <= i < k ==> !StartsWith(document, mark, i)
    ensures var at := FindText(document, mark, k);
            var b := if at.Some? then at.value else |document|;
            FirstOf(MarkAt(document, mark), |document|, from, b, if at.Some? then b + |mark| else b)
    decreases |document| - k
  {
    if k < |document| && !StartsWith(document, mark, k) { MarkFirst(document, mark, from, k + 1); }
  }

  lemma {:induction false} ClosingFirst(c: Closing, document: Text, from: nat, k: nat)
    requires from <= k <= |document| && forall i: nat :: from <= i < k ==> Goes(c, document, i, 0).None?
    ensures var at := FindClosing(c, document, k);
            var b := if at.Some? then at.value.0 else |document|;
            FirstOf(TagAt(c, document), |document|, from, b, if at.Some? then at.value.1 else b)
    decreases |document| - k
  {
    if k < |document| && Goes(c, document, k, 0).None? { ClosingFirst(c, document, from, k + 1); }
  }

  /** A comment reaches from its mark to the first closing mark behind it, a CDATA section likewise; a script or style from
      the end of its opening tag to the first closing tag of its name; without one, to the end of the document. */
  lemma {:induction false} ExtentSays(g: Grammar, document: Text, lt: nat)
    requires g.Valid() && lt < |document|
    ensures var x, n := ExtentOf(g, document, lt), |document|;
            if StartsWith(document, Codes("<!--"), lt) then
              x.Holds? && x.start == lt + 4 && FirstOf(MarkAt(document, Codes("-->")), n, x.start, x.end, x.next)
            else if StartsWith(document, Codes("<![CDATA["), lt) then
              x.Holds? && x.start == lt + 9 && FirstOf(MarkAt(document, Codes("]]>")), n, x.start, x.end, x.next)
            else match g.rawName(document, lt)
              case None => x == Tag(TagEnd(document, g.space, lt + 1))
              case Some(nameEnd) =>
                && x.Holds? && x.start == TagEnd(document, g.space, nameEnd)
                && FirstOf(TagAt(ClosingOf(g, document, lt, nameEnd), document), n, x.start, x.end, x.next)
  {
    hide StartsWith, FindText, FindClosing, TagEnd, FirstOf, MarkAt, TagAt, Goes, Codes;
    MarksSay();
    if StartsWith(document, COMMENT_OPEN, lt) {
      MarkLength(document, COMMENT_OPEN, lt);
      MarkFirst(document, COMMENT_CLOSE, lt + 4, lt + 4);
    } else if StartsWith(document, CDATA_OPEN, lt) {
      MarkLength(document, CDATA_OPEN, lt);
      MarkFirst(document, CDATA_CLOSE, lt + 9, lt + 9);
    } else if g.rawName(document, lt).Some? {
      var nameEnd := g.rawName(document, lt).value;
      var from := TagEnd(document, g.space, nameEnd);
      ClosingFirst(ClosingOf(g, document, lt, nameEnd), document, from, from);
    }
  }

  lemma {:induction false} MarkLength(document: Text, mark: Text, at: nat)
    requires StartsWith(document, mark, at)
    ensures at + |mark| <= |document|
  {
  }

  /** A tag starts at a `<` before a letter, `/`, `!` or `?`, and at one at the very end. */
  lemma {:induction false} StartSays(document: Text, at: nat)
    requires at < |document|
    ensures TagStart(document, at) <==>
            && document[at] == '<' as int
            && (at + 1 < |document| ==>
                  var c := document[at + 1];
                  || 'a' as int <= c <= 'z' as int || 'A' as int <= c <= 'Z' as int
                  || c == '/' as int || c == '!' as int || c == '?' as int)
  {
  }

  // ---------------------------------------------------------------- which places are searched

  /** A construct opens at `lt`: a tag starts there, and no construct before it reaches behind it. */
  ghost predicate Top(g: Grammar, document: Text, lt: nat)
    requires g.Valid()
    decreases lt
  {
    && lt < |document| && TagStart(document, lt)
    && forall k: nat :: k < lt ==> (Top(g, document, k) ==> ExtentOf(g, document, k).next <= lt)
  }

  /** Place `i` belongs to the construct at `lt`. */
  ghost predicate Within(g: Grammar, document: Text, lt: nat, i: nat)
    requires g.Valid()
  {
    Top(g, document, lt) && lt <= i < ExtentOf(g, document, lt).next
  }

  ghost predicate InConstruct(g: Grammar, document: Text, i: nat)
    requires g.Valid()
  {
    exists lt: nat :: Within(g, document, lt, i)
  }

  /** The searched characters of the construct at `lt` are `start..end`. */
  ghost predicate Searched(g: Grammar, document: Text, lt: nat, start: nat, end: nat)
    requires g.Valid()
  {
    && Top(g, document, lt)
    && var x := ExtentOf(g, document, lt);
    x.Holds? && x.start == start && x.end == end
  }

  /** Place `i` belongs to one construct at most. */
  lemma {:induction false} WithinOne(g: Grammar, document: Text, lt: nat, lt': nat, i: nat)
    requires g.Valid() && Within(g, document, lt, i) && Within(g, document, lt', i)
    ensures lt == lt'
  {
    hide ExtentOf, TagStart;
  }

  /** The segment is what its kind says: raw is all that one construct holds, text is outside all constructs and reaches to
      the next one, and markup is the rest of the constructs. */
  ghost predicate Proper(g: Grammar, document: Text, s: Segment)
    requires g.Valid()
  {
    match s.kind
    case Text =>
      && s.start < s.end <= |document| && (forall i: nat :: s.start <= i < s.end ==> !InConstruct(g, document, i))
      && (s.end == |document| || Top(g, document, s.end))
    case Raw => exists lt: nat :: Searched(g, document, lt, s.start, s.end)
    case Markup => exists lt: nat :: Bracket(g, document, s, lt)
  }

  /** A stretch of the construct at `lt` that is not what it holds. */
  ghost predicate Bracket(g: Grammar, document: Text, s: Segment, lt: nat)
    requires g.Valid()
  {
    && Top(g, document, lt)
    && var x := ExtentOf(g, document, lt);
    && lt <= s.start && s.end <= x.next && (x.Holds? ==> s.end <= x.start || x.end <= s.start)
  }

  ghost predicate AllProper(g: Grammar, document: Text, segments: seq<Segment>)
    requires g.Valid()
  {
    forall s :: s in segments ==> Proper(g, document, s)
  }

  lemma {:induction false} ProperJoin(g: Grammar, document: Text, a: seq<Segment>, b: seq<Segment>)
    requires g.Valid() && AllProper(g, document, a) && AllProper(g, document, b)
    ensures AllProper(g, document, a + b)
  {
    hide Proper;
  }

  lemma {:induction false} ConstructProper(g: Grammar, document: Text, lt: nat)
    requires g.Valid() && Top(g, document, lt)
    ensures lt < |document| && Construct(g, document, lt).1 == ExtentOf(g, document, lt).next
    ensures AllProper(g, document, Construct(g, document, lt).0)
  {
    assert lt < |document|;
    hide *;
    ConstructForm(g, document, lt);
    var (own, end) := Construct(g, document, lt);
    forall s | s in own
      ensures Proper(g, document, s)
    {
      PartProper(g, document, lt, s);
    }
    AllAre(g, document, own);
  }

  lemma {:induction false} AllAre(g: Grammar, document: Text, segments: seq<Segment>)
    requires g.Valid() && forall s :: s in segments ==> Proper(g, document, s)
    ensures AllProper(g, document, segments)
  {
    hide Proper;
  }

  /** A segment of a construct: all that it holds, or before or behind that. */
  ghost predicate PartOf(x: Extent, lt: nat, s: Segment) {
    || (s.kind == Raw && x.Holds? && s.start == x.start && s.end == x.end)
    || (s.kind == Markup && lt <= s.start && s.end <= x.next && (x.Holds? ==> s.end <= x.start || x.end <= s.start))
  }

  /** The segments of one construct, against its extent. */
  lemma {:induction false} ConstructForm(g: Grammar, document: Text, lt: nat)
    requires g.Valid() && lt < |document|
    ensures var c, x := Construct(g, document, lt), ExtentOf(g, document, lt);
            c.1 == x.next && forall s :: s in c.0 ==> PartOf(x, lt, s)
  {
    hide StartsWith, Marked, RawElement, Between, TagEnd, FindText, FindClosing, PartOf;
    MarksSay();
    if StartsWith(document, COMMENT_OPEN, lt) {
      MarkedForm(document, lt, COMMENT_OPEN, COMMENT_CLOSE);
    } else if StartsWith(document, CDATA_OPEN, lt) {
      MarkedForm(document, lt, CDATA_OPEN, CDATA_CLOSE);
    } else if g.rawName(document, lt).Some? {
      RawForm(g, document, lt, g.rawName(document, lt).value);
    } else {
      TagForm(lt, TagEnd(document, g.space, lt + 1));
    }
  }

  lemma {:induction false} TagForm(lt: nat, end: nat)
    requires lt < end
    ensures PartOf(Tag(end), lt, Segment(lt, end, Markup))
  {
  }

  lemma {:induction false} MarkedForm(document: Text, lt: nat, opener: Text, closer: Text)
    requires opener != [] && StartsWith(document, opener, lt)
    ensures var c, x := Marked(document, lt, opener, closer), Between(document, lt + |opener|, closer);
            c.1 == x.next && forall s :: s in c.0 ==> PartOf(x, lt, s)
  {
    hide FindText;
  }

  lemma {:induction false} RawForm(g: Grammar, document: Text, lt: nat, nameEnd: nat)
    requires g.Valid() && lt < |document| && g.rawName(document, lt) == Some(nameEnd)
    requires !StartsWith(document, COMMENT_OPEN, lt) && !StartsWith(document, CDATA_OPEN, lt)
    ensures lt < nameEnd <= |document|
    ensures var c, x := RawElement(g, document, lt, nameEnd), ExtentOf(g, document, lt);
            c.1 == x.next && forall s :: s in c.0 ==> PartOf(x, lt, s)
  {
    hide StartsWith, TagEnd, FindClosing, Between;
  }

  lemma {:induction false} PartProper(g: Grammar, document: Text, lt: nat, s: Segment)
    requires g.Valid() && Top(g, document, lt) && PartOf(ExtentOf(g, document, lt), lt, s)
    ensures Proper(g, document, s)
  {
    hide Top, ExtentOf;
    if s.kind == Raw {
      assert Searched(g, document, lt, s.start, s.end);
    } else {
      assert Bracket(g, document, s, lt);
    }
  }

  /** No construct opens in `from..upto`, and none from before reaches into it. */
  ghost predicate Outside(g: Grammar, document: Text, from: nat, upto: nat)
    requires g.Valid()
  {
    && (forall k: nat :: k < from ==> (Top(g, document, k) ==> ExtentOf(g, document, k).next <= from))
    && (forall k: nat :: from <= k < upto ==> !Top(g, document, k))
  }

  lemma {:induction false} OutsideMore(g: Grammar, document: Text, from: nat, mid: nat, upto: nat)
    requires g.Valid() && Outside(g, document, from, mid) && from <= mid <= upto <= |document|
    requires forall i :: mid <= i < upto ==> !TagStart(document, i)
    ensures Outside(g, document, from, upto)
  {
    hide ExtentOf, TagStart;
  }

  lemma {:induction false} OutsideIsTop(g: Grammar, document: Text, from: nat, lt: nat)
    requires g.Valid() && Outside(g, document, from, lt) && from <= lt < |document| && TagStart(document, lt)
    ensures Top(g, document, lt)
  {
    hide ExtentOf, TagStart;
    forall k: nat | k < lt && Top(g, document, k)
      ensures ExtentOf(g, document, k).next <= lt
    {
    }
  }

  lemma {:induction false} OutsideBehind(g: Grammar, document: Text, from: nat, lt: nat)
    requires g.Valid() && Outside(g, document, from, lt) && from <= lt && Top(g, document, lt)
    ensures lt < |document| && var end := ExtentOf(g, document, lt).next; Outside(g, document, end, end)
  {
    hide ExtentOf, TagStart;
    var end := ExtentOf(g, document, lt).next;
    forall k: nat | k < end && Top(g, document, k)
      ensures ExtentOf(g, document, k).next <= end
    {
    }
  }

  lemma {:induction false} FlushProper(g: Grammar, document: Text, from: nat, upto: nat)
    requires g.Valid() && Outside(g, document, from, upto) && from <= upto <= |document|
    requires upto == |document| || Top(g, document, upto)
    ensures AllProper(g, document, Flush(from, upto))
  {
    hide ExtentOf, Top;
    forall i: nat | from <= i < upto
      ensures !InConstruct(g, document, i)
    {
    }
  }

  lemma {:induction false} NoStartBefore(document: Text, pos: nat, upto: nat)
    requires pos <= upto <= |document|
    requires Find(document, LT, pos) == if upto < |document| then Some(upto) else None
    ensures forall i :: pos <= i < upto ==> !TagStart(document, i)
  {
    FindIsFirst(document, LT, pos);
    hide Find;
  }

  /** The scan cuts the document into segments that are what their kinds say. */
  lemma {:induction false} SegmentsProper(g: Grammar, document: Text, pos: nat, textStart: nat)
    requires g.Valid() && textStart <= pos <= |document| && Outside(g, document, textStart, pos)
    ensures AllProper(g, document, Segments(g, document, pos, textStart))
    decreases |document| - pos
  {
    hide *;
    SegmentsStep(g, document, pos, textStart);
    var at := Find(document, LT, pos);
    FoundAtEnd(document, pos);
    if at.None? {
      NoStartBefore(document, pos, |document|);
      OutsideMore(g, document, textStart, pos, |document|);
      FlushProper(g, document, textStart, |document|);
    } else {
      var lt := at.value;
      NoStartBefore(document, pos, lt);
      OutsideMore(g, document, textStart, pos, lt);
      if !TagStart(document, lt) {
        OutsideMore(g, document, textStart, lt, lt + 1);
        SegmentsProper(g, document, lt + 1, textStart);
      } else {
        OutsideIsTop(g, document, textStart, lt);
        OutsideBehind(g, document, textStart, lt);
        ConstructProper(g, document, lt);
        var (own, end) := Construct(g, document, lt);
        var flush, rest := Flush(textStart, lt), Segments(g, document, end, end);
        SegmentsProper(g, document, end, end);
        FlushProper(g, document, textStart, lt);
        ProperJoin(g, document, flush, own);
        ProperJoin(g, document, flush + own, rest);
      }
    }
  }

  lemma {:induction false} OutsideAtStart(g: Grammar, document: Text)
    requires g.Valid()
    ensures Outside(g, document, 0, 0)
  {
  }

  // ---------------------------------------------------------------- what is searched

  /** The segment that holds place `i`. */
  lemma {:induction false} SegmentAt(segments: seq<Segment>, from: nat, n: nat, i: nat) returns (k: nat)
    requires Cover(segments, from, n) && from <= i < n
    ensures k < |segments| && segments[k].start <= i < segments[k].end
    decreases |segments|
  {
    if i < segments[0].end {
      k := 0;
    } else {
      k := SegmentAt(segments[1..], segments[0].end, n, i);
      assert segments[1..][k] == segments[k + 1];
      k := k + 1;
    }
  }

  /** A place is in text exactly if no construct reaches over it, and in a raw segment exactly if one holds it. */
  lemma {:induction false} KindIs(g: Grammar, document: Text, s: Segment, i: nat)
    requires g.Valid() && Proper(g, document, s) && s.start <= i < s.end
    ensures s.kind == Text <==> !InConstruct(g, document, i)
    ensures s.kind == Raw <==> exists lt: nat, a: nat, b: nat :: Searched(g, document, lt, a, b) && a <= i < b
  {
    hide Top, ExtentOf;
    if s.kind == Raw {
      var lt: nat :| Searched(g, document, lt, s.start, s.end);
      HeldIsWithin(g, document, lt, s.start, s.end, i);
      assert InConstruct(g, document, i);
    } else {
      if s.kind == Markup {
        var lt: nat :| Bracket(g, document, s, lt);
        assert Within(g, document, lt, i);
      }
      forall lt: nat, a: nat, b: nat | Searched(g, document, lt, a, b) && a <= i < b
        ensures false
      {
        HeldIsWithin(g, document, lt, a, b, i);
        if s.kind == Markup {
          var k: nat :| Bracket(g, document, s, k);
          assert Within(g, document, k, i);
          WithinOne(g, document, lt, k, i);
        } else {
          WithinConstruct(g, document, lt, i);
        }
      }
    }
  }

  lemma {:induction false} WithinConstruct(g: Grammar, document: Text, lt: nat, i: nat)
    requires g.Valid() && Within(g, document, lt, i)
    ensures InConstruct(g, document, i)
  {
  }

  lemma {:induction false} HeldIsWithin(g: Grammar, document: Text, lt: nat, a: nat, b: nat, i: nat)
    requires g.Valid() && Searched(g, document, lt, a, b) && a <= i < b
    ensures Within(g, document, lt, i)
  {
    hide Top;
  }

  /** What a construct holds is one raw segment. */
  lemma {:induction false} HeldIsRaw(g: Grammar, document: Text, segments: seq<Segment>, lt: nat, a: nat, b: nat)
    requires g.Valid() && Cover(segments, 0, |document|) && AllProper(g, document, segments)
    requires Searched(g, document, lt, a, b) && a < b
    ensures Segment(a, b, Raw) in segments
  {
    hide *;
    HeldIsWithin(g, document, lt, a, b, a);
    WithinIn(g, document, lt, a);
    var k := SegmentAt(segments, 0, |document|, a);
    var s := segments[k];
    ProperAt(g, document, segments, k);
    KindIs(g, document, s, a);
    var lt' := RawOf(g, document, s);
    HeldIsWithin(g, document, lt', s.start, s.end, a);
    WithinOne(g, document, lt, lt', a);
    SearchedOne(g, document, lt, a, b, s.start, s.end);
  }

  lemma {:induction false} WithinIn(g: Grammar, document: Text, lt: nat, i: nat)
    requires g.Valid() && Within(g, document, lt, i)
    ensures i < |document|
  {
    hide TagStart;
  }

  lemma {:induction false} ProperAt(g: Grammar, document: Text, segments: seq<Segment>, k: nat)
    requires g.Valid() && AllProper(g, document, segments) && k < |segments|
    ensures Proper(g, document, segments[k])
  {
    hide Proper;
  }

  lemma {:induction false} RawOf(g: Grammar, document: Text, s: Segment) returns (lt: nat)
    requires g.Valid() && Proper(g, document, s) && s.kind == Raw
    ensures Searched(g, document, lt, s.start, s.end)
  {
    hide Searched;
    lt :| Searched(g, document, lt, s.start, s.end);
  }

  lemma {:induction false} SearchedOne(g: Grammar, document: Text, lt: nat, a: nat, b: nat, a': nat, b': nat)
    requires g.Valid() && Searched(g, document, lt, a, b) && Searched(g, document, lt, a', b')
    ensures a == a' && b == b'
  {
    hide ExtentOf, Top;
  }

  /** A stretch outside all constructs that reaches from one to the next, or to an end of the document. */
  ghost predicate Open(g: Grammar, document: Text, a: nat, b: nat)
    requires g.Valid()
  {
    && a < b <= |document| && (forall i: nat :: a <= i < b ==> !InConstruct(g, document, i))
    && (a == 0 || InConstruct(g, document, a - 1)) && (b == |document| || InConstruct(g, document, b))
  }

  /** Such a stretch is one text segment. */
  lemma {:induction false} OpenIsText(g: Grammar, document: Text, segments: seq<Segment>, a: nat, b: nat)
    requires g.Valid() && Cover(segments, 0, |document|) && AllProper(g, document, segments) && Open(g, document, a, b)
    ensures Segment(a, b, Text) in segments
  {
    hide InConstruct, Proper, Cover;
    var k := SegmentAt(segments, 0, |document|, a);
    var s := segments[k];
    ProperAt(g, document, segments, k);
    KindIs(g, document, s, a);
    TextParts(g, document, s);
  }

  lemma {:induction false} TextParts(g: Grammar, document: Text, s: Segment)
    requires g.Valid() && Proper(g, document, s) && s.kind == Text
    ensures forall i: nat :: s.start <= i < s.end ==> !InConstruct(g, document, i)
    ensures s.end <= |document| && (s.end == |document| || InConstruct(g, document, s.end))
  {
    hide ExtentOf;
    if s.end < |document| { assert Within(g, document, s.end, s.end); }
  }
}
