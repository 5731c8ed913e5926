/** Text nodes of Office documents (files.py `_ooxml_groups`, `_mask_ooxml_fragment`). */
module Ooxml {
  import opened Base
  import opened Rules
  import opened Distribute
  import opened Pieces
  import opened Spans
  import opened MaskedSpans

  /** `html.unescape` and `xml_escape`, of which only the round trip is used, and the regular expressions of the text nodes
      and of the tags of paragraph-like elements. */
  datatype Xml = Xml(
    unescape: Text -> Text,
    escape: Text -> Text,
    textNodes: Text -> seq<Node>,
    groupTags: Text -> seq<GroupTag>)
  {
    ghost predicate Valid() {
      && (forall s: Text :: unescape(escape(s)) == s)
      && (forall s: Text :: NodesIn(textNodes(s), |s|))
      && (forall s: Text :: TagsIn(groupTags(s), |s|))
    }
  }

  /** The text of one node: a stretch of the fragment. */
  datatype Node = Node(start: nat, end: nat)

  /** What the regular expression promises: nodes come in order and do not overlap. */
  ghost predicate NodesIn(nodes: seq<Node>, n: nat) {
    && (forall k :: 0 <= k < |nodes| ==> nodes[k].start <= nodes[k].end <= n)
    && (forall j, k :: 0 <= j < k < |nodes| ==> nodes[j].end <= nodes[k].start)
  }

  function Written(fragment: Text, nodes: seq<Node>, i: nat): Text
    requires i < |nodes| && nodes[i].start <= nodes[i].end <= |fragment|
  {
    fragment[nodes[i].start..nodes[i].end]
  }

  ghost function Texts(xml: Xml, fragment: Text, nodes: seq<Node>): (texts: seq<Text>)
    requires NodesIn(nodes, |fragment|)
    ensures |texts| == |nodes|
  {
    seq(|nodes|, i requires 0 <= i < |nodes| => xml.unescape(Written(fragment, nodes, i)))
  }

  ghost function Read(xml: Xml, values: seq<Text>): (texts: seq<Text>)
    ensures |texts| == |values|
  {
    seq(|values|, i requires 0 <= i < |values| => xml.unescape(values[i]))
  }

  /** The fragment with new text in its nodes. */
  ghost function Edits(nodes: seq<Node>, values: seq<Text>): (edits: seq<Edit<point>>)
    requires |values| == |nodes|
    ensures |edits| == |nodes|
  {
    seq(|nodes|, i requires 0 <= i < |nodes| => Edit(nodes[i].start, nodes[i].end, values[i]))
  }

  lemma {:induction false} EditsOrdered(nodes: seq<Node>, values: seq<Text>, from: nat, n: nat)
    requires NodesIn(nodes, n) && |values| == |nodes| && from <= n && (nodes != [] ==> from <= nodes[0].start)
    ensures Ordered(Edits(nodes, values), from, n)
    decreases |nodes|
  {
    if nodes != [] {
      assert Edits(nodes, values)[1..] == Edits(nodes[1..], values[1..]);
      EditsOrdered(nodes[1..], values[1..], nodes[0].end, n);
    }
  }

  /** Every rewritten value reads as its text; the others are as they were written. */
  ghost predicate Rewritten(xml: Xml, fragment: Text, nodes: seq<Node>, texts: seq<Text>, values: seq<Text>,
                            replaced: map<nat, Text>)
    requires NodesIn(nodes, |fragment|)
  {
    && |values| == |nodes| == |texts|
    && forall i: nat :: i < |nodes| ==>
         values[i] == if i in replaced then xml.escape(replaced[i]) else Written(fragment, nodes, i)
  }

  lemma {:induction false} ReadIsFinal(xml: Xml, fragment: Text, nodes: seq<Node>, values: seq<Text>, replaced: map<nat, Text>)
    requires xml.Valid() && NodesIn(nodes, |fragment|)
    requires Rewritten(xml, fragment, nodes, Texts(xml, fragment, nodes), values, replaced)
    ensures Read(xml, values) == Final(Texts(xml, fragment, nodes), replaced)
  {
  }

  method ReadNodes(xml: Xml, fragment: Text, nodes: seq<Node>) returns (texts: seq<Text>)
    requires NodesIn(nodes, |fragment|)
    ensures texts == Texts(xml, fragment, nodes)
  {
    texts := [];
    for i := 0 to |nodes|
      invariant |texts| == i && forall k :: 0 <= k < i ==> texts[k] == xml.unescape(Written(fragment, nodes, k))
    {
      texts := texts + [xml.unescape(Written(fragment, nodes, i))];
    }
  }

  /** The last loop: node texts in place, everything between them as it was. */
  method Rebuild(xml: Xml, fragment: Text, nodes: seq<Node>, ghost texts: seq<Text>, replaced: map<nat, Text>)
    returns (result: Text, values: seq<Text>)
    requires NodesIn(nodes, |fragment|) && |texts| == |nodes|
    ensures Rewritten(xml, fragment, nodes, texts, values, replaced)
    ensures Ordered(Edits(nodes, values), 0, |fragment|) && result == Replace(fragment, Edits(nodes, values), 0)
  {
    hide Replace;
    values := seq(|nodes|, i requires 0 <= i < |nodes| =>
      if i in replaced then xml.escape(replaced[i]) else Written(fragment, nodes, i));
    EditsOrdered(nodes, values, 0, |fragment|);
    ghost var edits := Edits(nodes, values);
    result := [];
    var last: nat := 0;
    assert edits[0..] == edits && [] + Replace(fragment, edits, 0) == Replace(fragment, edits, 0);
    for i := 0 to |nodes|
      invariant last <= |fragment| && Ordered(edits[i..], last, |fragment|)
      invariant result + Replace(fragment, edits[i..], last) == Replace(fragment, edits, 0)
    {
      ReplaceStep(fragment, edits, i, last);
      var value := if i in replaced then xml.escape(replaced[i]) else Written(fragment, nodes, i);
      Assoc4(result, fragment[last..nodes[i].start], value, Replace(fragment, edits[i + 1..], nodes[i].end));
      result := result + fragment[last..nodes[i].start] + value;
      last := nodes[i].end;
    }
    assert edits[|nodes|..] == [];
    ReplaceNone(fragment, last);
    result := result + fragment[last..];
  }

  // ---------------------------------------------------------------- nodes searched as one text

  /** A paragraph's nodes are searched as one text. Exactly the nodes a span reaches get a new text, and the mask of a span
      stands whole in the node in which the span starts. */
  ghost predicate MaskedTogether(xml: Xml, fragment: Text, nodes: seq<Node>, rules: seq<Rule>, spans: seq<Edit<point>>,
                                 replaced: map<nat, Text>, values: seq<Text>)
    requires NodesIn(nodes, |fragment|) && AllValid(rules)
  {
    var texts := Texts(xml, fragment, nodes);
    && SpansFor(Join(texts), rules, spans)
    && Shared(texts, spans, AtStart, replaced, |texts|)
    && Rewritten(xml, fragment, nodes, texts, values, replaced)
  }

  method MaskJoined(xml: Xml, fragment: Text, nodes: seq<Node>, rules: seq<Rule>)
    returns (result: Text, hits: nat, values: seq<Text>, replaced: map<nat, Text>, spans: seq<Edit<point>>)
    requires xml.Valid() && NodesIn(nodes, |fragment|) && AllValid(rules)
    ensures MaskedTogether(xml, fragment, nodes, rules, spans, replaced, values) && hits == |spans|
    ensures |values| == |nodes|
    ensures Ordered(Edits(nodes, values), 0, |fragment|) && result == Replace(fragment, Edits(nodes, values), 0)
    ensures hits == 0 ==> result == fragment
  {
    hide *;
    var texts := ReadNodes(xml, fragment, nodes);
    TextCount(xml, fragment, nodes);
    var joined := JoinTexts(texts);
    spans := FindMaskedSpans(joined, rules);
    hits := |spans|;
    SpansSay(joined, rules, spans);
    replaced := DistributeAtStart(texts, spans);
    result, values := Rebuild(xml, fragment, nodes, texts, replaced);
    Together(xml, fragment, nodes, rules, spans, replaced, values);
    if hits == 0 {
      NoSpansNoNodes(texts, spans, replaced);
      NothingRewritten(xml, fragment, nodes, texts, values, replaced);
    }
  }

  lemma {:induction false} Together(xml: Xml, fragment: Text, nodes: seq<Node>, rules: seq<Rule>, spans: seq<Edit<point>>,
                                    replaced: map<nat, Text>, values: seq<Text>)
    requires NodesIn(nodes, |fragment|) && AllValid(rules)
    requires var texts := Texts(xml, fragment, nodes);
             && DisjointSpans(spans, |Join(texts)|) && SpansFor(Join(texts), rules, spans)
             && Shared(texts, spans, AtStart, replaced, |texts|) && Rewritten(xml, fragment, nodes, texts, values, replaced)
    ensures MaskedTogether(xml, fragment, nodes, rules, spans, replaced, values) && |values| == |nodes|
  {
  }

  /** What the nodes read as afterwards is, joined, exactly the masked text. */
  lemma {:induction false} TogetherReadsMasked(xml: Xml, fragment: Text, nodes: seq<Node>, rules: seq<Rule>,
                                               spans: seq<Edit<point>>, replaced: map<nat, Text>, values: seq<Text>)
    requires xml.Valid() && NodesIn(nodes, |fragment|) && AllValid(rules)
    requires MaskedTogether(xml, fragment, nodes, rules, spans, replaced, values)
    ensures Join(Read(xml, values)) == Masked(Join(Texts(xml, fragment, nodes)), rules)
  {
    var texts := Texts(xml, fragment, nodes);
    SpansSay(Join(texts), rules, spans);
    hide *;
    AtStartFair<point>();
    ReadIsFinal(xml, fragment, nodes, values, replaced);
    SharedIsSpliced(texts, spans, AtStart, replaced);
  }

  /** A node with text keeps its bytes if all its characters survive the rules, and is rewritten only if one does not. */
  lemma {:induction false} TogetherKeepsOthers(xml: Xml, fragment: Text, nodes: seq<Node>, rules: seq<Rule>,
                                               spans: seq<Edit<point>>, replaced: map<nat, Text>, values: seq<Text>, i: nat)
    requires NodesIn(nodes, |fragment|) && AllValid(rules) && i < |nodes| && Texts(xml, fragment, nodes)[i] != []
    requires MaskedTogether(xml, fragment, nodes, rules, spans, replaced, values)
    ensures |values| == |nodes|
    ensures var texts := Texts(xml, fragment, nodes);
            && (i in replaced <==> !AllSurvive(Join(texts), rules, Start(texts, i), Start(texts, i + 1)))
            && (i !in replaced ==> values[i] == Written(fragment, nodes, i))
  {
    var texts := Texts(xml, fragment, nodes);
    PieceText(texts, i);
    SpansSay(Join(texts), rules, spans);
    assert i in replaced <==> Touched(spans, Start(texts, i), Start(texts, i + 1));
    hide *;
    TouchedIsHidden(Join(texts), rules, spans, Start(texts, i), Start(texts, i + 1));
  }

  /** A span reaches a stretch of text exactly if some character of it does not survive. */
  lemma {:induction false} TouchedIsHidden(text: Text, rules: seq<Rule>, spans: seq<Edit<point>>, start: nat, end: nat)
    requires AllValid(rules) && SpansFor(text, rules, spans) && start < end <= |text|
    ensures Touched(spans, start, end) <==> !AllSurvive(text, rules, start, end)
  {
    hide Trace, Survives, Masked, Replace;
    if !AllSurvive(text, rules, start, end) {
      var i :| start <= i < end && !Survives(Trace(text, rules), i);
      assert Covered(spans, i);
      var e :| e in spans && e.start <= i < e.end;
      var k :| 0 <= k < |spans| && spans[k] == e;
      assert Reaches(spans, k, start, end);
    } else {
      SurvivingIsApart(text, rules, spans, start, end);
    }
  }

  lemma {:induction false} NoSpansNoNodes(texts: seq<Text>, spans: seq<Edit<point>>, replaced: map<nat, Text>)
    requires spans == [] && DisjointSpans(spans, |Join(texts)|) && Shared(texts, spans, AtStart, replaced, |texts|)
    ensures replaced == map[]
  {
    hide Given, Join, Start;
    forall i: nat
      ensures i !in replaced
    {
      if i < |texts| { assert i in replaced <==> Touched(spans, Start(texts, i), Start(texts, i + 1)); }
    }
  }

  /** Writing every node as it was leaves the fragment. */
  lemma {:induction false} NothingRewritten(xml: Xml, fragment: Text, nodes: seq<Node>, texts: seq<Text>, values: seq<Text>,
                                            replaced: map<nat, Text>)
    requires NodesIn(nodes, |fragment|) && Rewritten(xml, fragment, nodes, texts, values, replaced) && replaced == map[]
    requires Ordered(Edits(nodes, values), 0, |fragment|)
    ensures Replace(fragment, Edits(nodes, values), 0) == fragment
  {
    var edits := Edits(nodes, values);
    assert forall k :: 0 <= k < |edits| ==> edits[k].mask == fragment[nodes[k].start..nodes[k].end];
    AsWritten(fragment, edits, 0);
    assert fragment[0..] == fragment;
  }

  lemma {:induction false} AsWritten(s: Text, edits: seq<Edit<point>>, from: nat)
    requires Ordered(edits, from, |s|)
    requires forall k :: 0 <= k < |edits| ==> edits[k].start <= edits[k].end <= |s| && edits[k].mask == s[edits[k].start..edits[k].end]
    ensures Replace(s, edits, from) == s[from..]
    decreases |edits|
  {
    if edits != [] {
      OrderedBounds(edits, from, |s|);
      AsWritten(s, edits[1..], edits[0].end);
      var a, b := edits[0].start, edits[0].end;
      assert s[from..a] + s[a..b] + s[b..] == s[from..];
    }
  }

  lemma {:induction false} TextCount(xml: Xml, fragment: Text, nodes: seq<Node>)
    requires NodesIn(nodes, |fragment|)
    ensures |Texts(xml, fragment, nodes)| == |nodes|
  {
  }

  /** `str.join` with nothing in between. */
  method JoinTexts(texts: seq<Text>) returns (joined: Text)
    ensures joined == Join(texts)
  {
    joined := [];
    assert texts[..0] == [];
    for i := 0 to |texts|
      invariant joined == Join(texts[..i])
    {
      JoinStep(texts, i);
      joined := joined + texts[i];
    }
    assert texts[..|texts|] == texts;
  }

  // ---------------------------------------------------------------- nodes searched one by one

  /** Every node is searched on its own. With a hit it is written anew and reads as its own masked text; without one it
      keeps its bytes. `counts` are the hits of the nodes. */
  ghost predicate MaskedApart(xml: Xml, fragment: Text, nodes: seq<Node>, rules: seq<Rule>, counts: seq<nat>, values: seq<Text>)
    requires NodesIn(nodes, |fragment|) && AllValid(rules)
  {
    && |values| == |nodes| == |counts|
    && forall i: nat :: i < |nodes| ==>
         && HitsIn(Texts(xml, fragment, nodes)[i], rules, counts[i])
         && values[i] == (if counts[i] == 0 then Written(fragment, nodes, i)
                          else xml.escape(Masked(Texts(xml, fragment, nodes)[i], rules)))
  }

  ghost predicate HitsIn(text: Text, rules: seq<Rule>, hits: nat)
    requires AllValid(rules)
  {
    exists spans :: SpansFor(text, rules, spans) && hits == |spans|
  }

  /** A text has no hit exactly if all its characters survive. */
  lemma {:induction false} NoHits(text: Text, rules: seq<Rule>, hits: nat)
    requires AllValid(rules) && HitsIn(text, rules, hits)
    ensures hits == 0 <==> AllSurvive(text, rules, 0, |text|)
    ensures hits == 0 ==> Masked(text, rules) == text
  {
    hide Trace, Survives, Masked, Replace;
    var spans :| SpansFor(text, rules, spans) && hits == |spans|;
    if |text| > 0 { TouchedIsHidden(text, rules, spans, 0, |text|); }
    if AllSurvive(text, rules, 0, |text|) { SurvivingIsApart(text, rules, spans, 0, |text|); }
  }

  method MaskSingly(xml: Xml, fragment: Text, nodes: seq<Node>, rules: seq<Rule>)
    returns (result: Text, hits: nat, values: seq<Text>, ghost counts: seq<nat>)
    requires xml.Valid() && NodesIn(nodes, |fragment|) && AllValid(rules)
    ensures MaskedApart(xml, fragment, nodes, rules, counts, values) && hits == Sum(counts)
    ensures |values| == |nodes|
    ensures Ordered(Edits(nodes, values), 0, |fragment|) && result == Replace(fragment, Edits(nodes, values), 0)
    ensures hits == 0 ==> result == fragment
  {
    hide *;
    var texts := ReadNodes(xml, fragment, nodes);
    TextCount(xml, fragment, nodes);
    var replaced: map<nat, Text> := map[];
    MaskedNone(texts, rules);
    SumGrow([], 0);
    hits, counts := 0, [];
    for i := 0 to |nodes|
      invariant MaskedUpto(texts, rules, replaced, counts) && |counts| == i
      invariant hits == Sum(counts) && (hits == 0 ==> replaced == map[])
    {
      var value := MaskOne(texts[i], rules);
      ghost var before := replaced;
      if value.1 > 0 { replaced := replaced[i := value.0]; }
      MaskedGrow(texts, rules, before, counts, value, replaced);
      SumGrow(counts, value.1);
      hits := hits + value.1;
      counts := counts + [value.1];
    }
    result, values := Rebuild(xml, fragment, nodes, texts, replaced);
    Apart(xml, fragment, nodes, rules, counts, values, replaced);
    if hits == 0 { NothingRewritten(xml, fragment, nodes, texts, values, replaced); }
  }

  /** The first nodes have their masked text; a node without a hit keeps its own. */
  ghost predicate MaskedUpto(texts: seq<Text>, rules: seq<Rule>, replaced: map<nat, Text>, counts: seq<nat>)
    requires AllValid(rules)
  {
    && |counts| <= |texts|
    && (forall k :: k in replaced ==> k < |counts|)
    && forall k: nat :: k < |counts| ==>
         && HitsIn(texts[k], rules, counts[k])
         && (k in replaced <==> counts[k] > 0)
         && (k in replaced ==> replaced[k] == Masked(texts[k], rules))
  }

  lemma {:induction false} MaskedNone(texts: seq<Text>, rules: seq<Rule>)
    requires AllValid(rules)
    ensures MaskedUpto(texts, rules, map[], [])
  {
  }

  lemma {:induction false} MaskedGrow(texts: seq<Text>, rules: seq<Rule>, replaced: map<nat, Text>, counts: seq<nat>,
                                      value: (Text, nat), replaced': map<nat, Text>)
    requires AllValid(rules) && |counts| < |texts| && MaskedUpto(texts, rules, replaced, counts)
    requires HitsIn(texts[|counts|], rules, value.1) && (value.1 > 0 ==> value.0 == Masked(texts[|counts|], rules))
    requires replaced' == if value.1 > 0 then replaced[|counts| := value.0] else replaced
    ensures MaskedUpto(texts, rules, replaced', counts + [value.1])
  {
    hide Masked, HitsIn;
    assert |counts| !in replaced;
  }

  lemma {:induction false} Apart(xml: Xml, fragment: Text, nodes: seq<Node>, rules: seq<Rule>, counts: seq<nat>,
                                 values: seq<Text>, replaced: map<nat, Text>)
    requires NodesIn(nodes, |fragment|) && AllValid(rules) && |counts| == |nodes|
    requires MaskedUpto(Texts(xml, fragment, nodes), rules, replaced, counts)
    requires Rewritten(xml, fragment, nodes, Texts(xml, fragment, nodes), values, replaced)
    ensures MaskedApart(xml, fragment, nodes, rules, counts, values) && |values| == |nodes|
  {
    hide Masked, HitsIn;
  }

  /** Every node reads as its own masked text afterwards, and keeps its bytes exactly where nothing was to be hidden. */
  lemma {:induction false} ApartReadsMasked(xml: Xml, fragment: Text, nodes: seq<Node>, rules: seq<Rule>, counts: seq<nat>,
                                            values: seq<Text>, i: nat)
    requires xml.Valid() && NodesIn(nodes, |fragment|) && AllValid(rules) && i < |nodes|
    requires MaskedApart(xml, fragment, nodes, rules, counts, values)
    ensures |values| == |nodes|
    ensures var text := Texts(xml, fragment, nodes)[i];
            && xml.unescape(values[i]) == Masked(text, rules)
            && (AllSurvive(text, rules, 0, |text|) ==> values[i] == Written(fragment, nodes, i))
  {
    hide Masked, HitsIn, AllSurvive, NodesIn;
    NoHits(Texts(xml, fragment, nodes)[i], rules, counts[i]);
  }

  /** A group of one node. */
  method MaskOne(text: Text, rules: seq<Rule>) returns (r: (Text, nat))
    requires AllValid(rules)
    ensures HitsIn(text, rules, r.1)
    ensures r.1 > 0 ==> r.0 == Masked(text, rules)
  {
    hide *;
    var spans := FindMaskedSpans(text, rules);
    SpansSay(text, rules, spans);
    JoinOne(text);
    var replaced := DistributeAtStart([text], spans);
    AtStartFair<point>();
    SharedIsSpliced([text], spans, AtStart, replaced);
    FinalOne(text, replaced);
    if spans != [] { OneIsTouched(text, spans, replaced); }
    r := (if 0 in replaced then replaced[0] else text, |spans|);
    Hits(text, rules, spans);
  }

  lemma {:induction false} Hits(text: Text, rules: seq<Rule>, spans: seq<Edit<point>>)
    requires AllValid(rules) && SpansFor(text, rules, spans)
    ensures HitsIn(text, rules, |spans|)
  {
  }

  lemma {:induction false} FinalOne(text: Text, replaced: map<nat, Text>)
    ensures Join(Final([text], replaced)) == if 0 in replaced then replaced[0] else text
  {
    var value := if 0 in replaced then replaced[0] else text;
    assert Final([text], replaced) == [value];
    JoinOne(value);
  }

  lemma {:induction false} OneIsTouched(text: Text, spans: seq<Edit<point>>, replaced: map<nat, Text>)
    requires spans != [] && DisjointSpans(spans, |text|) && Join([text]) == text
    requires Shared([text], spans, AtStart, replaced, 1)
    ensures 0 in replaced
  {
    hide RangeOut;
    assert [text][..1] == [text] && [text][..0] == [];
    assert Start([text], 0) == 0 && Start([text], 1) == |text|;
    assert Reaches(spans, 0, 0, |text|);
  }

  // ---------------------------------------------------------------- groups

  /** An opening, closing or self-closing tag of a paragraph-like element. */
  datatype GroupTag = GroupTag(start: nat, end: nat, closing: bool, selfClosing: bool)

  datatype Group = Group(start: nat, end: nat, joined: bool)

  /** Tags come in order and do not overlap. */
  ghost predicate TagsIn(tags: seq<GroupTag>, n: nat) {
    && (forall i :: 0 <= i < |tags| ==> tags[i].start <= tags[i].end <= n)
    && (forall i, j :: 0 <= i && j == i + 1 && j < |tags| ==> tags[i].end <= tags[j].start)
  }

  /** How deep in paragraph-like elements the text after the tags is; stray closing tags do not count. */
  function Depth(tags: seq<GroupTag>): nat {
    if tags == [] then 0
    else
      var d, t := Depth(tags[..|tags| - 1]), tags[|tags| - 1];
      if t.selfClosing then d else if t.closing then (if d == 0 then 0 else d - 1) else d + 1
  }

  /** Opening tags less closing ones among the tags `j..k`; a tag that closes itself is neither. */
  function Net(tags: seq<GroupTag>, j: nat, k: nat): int
    requires j <= k <= |tags|
    decreases k - j
  {
    if j == k then 0
    else Net(tags, j, k - 1) + if tags[k - 1].selfClosing then 0 else if tags[k - 1].closing then -1 else 1
  }

  /** Tag `j` is still open before tag `k`: from it on there are never as many closing tags as opening ones. */
  ghost predicate StillOpen(tags: seq<GroupTag>, j: nat, k: nat)
    requires j < k <= |tags|
  {
    forall m :: j < m <= k ==> Net(tags, j, m) > 0
  }

  lemma {:induction false} DepthAbove(tags: seq<GroupTag>, j: nat, k: nat)
    requires j <= k <= |tags|
    ensures Net(tags, j, k) <= Depth(tags[..k])
    decreases k - j
  {
    if j < k {
      DepthAbove(tags, j, k - 1);
      DepthStep(tags, k - 1);
    }
  }

  /** Since it was last zero the depth is what has been opened and not closed. */
  lemma {:induction false} DepthSince(tags: seq<GroupTag>, j: nat, k: nat)
    requires j <= k <= |tags| && Depth(tags[..j]) == 0 && forall m :: j < m <= k ==> Depth(tags[..m]) > 0
    ensures Net(tags, j, k) == Depth(tags[..k])
    decreases k - j
  {
    if j < k {
      DepthSince(tags, j, k - 1);
      DepthStep(tags, k - 1);
    }
  }

  lemma {:induction false} LastZero(tags: seq<GroupTag>, k: nat) returns (j: nat)
    requires k <= |tags|
    ensures j <= k && Depth(tags[..j]) == 0 && forall m :: j < m <= k ==> Depth(tags[..m]) > 0
  {
    j := k;
    if Depth(tags[..k]) > 0 { j := LastZero(tags, k - 1); }
  }

  /** Text is inside a paragraph-like element exactly if some opening tag before it is still open. */
  lemma {:induction false} DepthExactly(tags: seq<GroupTag>, k: nat)
    requires k <= |tags|
    ensures Depth(tags[..k]) > 0 <==> exists j :: 0 <= j < k && StillOpen(tags, j, k)
  {
    hide Depth;
    if Depth(tags[..k]) > 0 {
      var j := LastZero(tags, k);
      assert j < k;
      forall m | j < m <= k
        ensures Net(tags, j, m) > 0
      {
        DepthSince(tags, j, m);
      }
      assert StillOpen(tags, j, k);
    }
    if j :| 0 <= j < k && StillOpen(tags, j, k) {
      DepthAbove(tags, j, k);
    }
  }

  /** Groups follow one another from `from` to `upto`. */
  ghost predicate Consecutive(groups: seq<Group>, from: nat, upto: nat) {
    && (groups == [] ==> from == upto)
    && (groups != [] ==> groups[0].start == from && groups[|groups| - 1].end == upto)
    && (forall i :: 0 <= i < |groups| ==> groups[i].start <= groups[i].end)
    && (forall i, j :: 0 <= i && j == i + 1 && j < |groups| ==> groups[i].end == groups[j].start)
  }

  lemma {:induction false} ConsecutiveGrow(groups: seq<Group>, from: nat, upto: nat, g: Group)
    requires Consecutive(groups, from, upto) && g.start == upto <= g.end
    ensures Consecutive(groups + [g], from, g.end)
  {
  }

  lemma {:induction false} TagAt(tags: seq<GroupTag>, n: nat, k: nat)
    requires TagsIn(tags, n) && k < |tags|
    ensures tags[k].start <= tags[k].end <= n
    ensures k > 0 ==> tags[k - 1].end <= tags[k].start
  {
  }

  /** The groups of the first `k` tags: text before each tag, then the tag. */
  ghost predicate GroupsOf(tags: seq<GroupTag>, k: nat, groups: seq<Group>)
    requires k <= |tags|
  {
    && |groups| == 2 * k
    && forall i :: 0 <= i < k ==>
         && (groups[2 * i].joined <==> Depth(tags[..i]) > 0)
         && groups[2 * i + 1] == Group(tags[i].start, tags[i].end, false)
  }

  lemma {:induction false} GroupsGrow(tags: seq<GroupTag>, k: nat, groups: seq<Group>, g: Group, t: Group)
    requires k < |tags| && GroupsOf(tags, k, groups)
    requires (g.joined <==> Depth(tags[..k]) > 0) && t == Group(tags[k].start, tags[k].end, false)
    ensures GroupsOf(tags, k + 1, groups + [g] + [t])
  {
    hide Depth;
    var all := groups + [g] + [t];
    forall i | 0 <= i < k + 1
      ensures (all[2 * i].joined <==> Depth(tags[..i]) > 0) && all[2 * i + 1] == Group(tags[i].start, tags[i].end, false)
    {
      if i < k { assert all[2 * i] == groups[2 * i] && all[2 * i + 1] == groups[2 * i + 1]; }
    }
  }

  lemma {:induction false} DepthStep(tags: seq<GroupTag>, k: nat)
    requires k < |tags|
    ensures var d := Depth(tags[..k]);
            Depth(tags[..k + 1])
              == if tags[k].selfClosing then d else if tags[k].closing then (if d == 0 then 0 else d - 1) else d + 1
  {
    assert tags[..k + 1][..k] == tags[..k];
  }

  lemma {:induction false} NoGroups(tags: seq<GroupTag>)
    ensures GroupsOf(tags, 0, []) && Consecutive([], 0, 0) && Depth(tags[..0]) == 0
  {
  }

  lemma {:induction false} LastGroup(tags: seq<GroupTag>, groups: seq<Group>, g: Group, all: seq<Group>)
    requires GroupsOf(tags, |tags|, groups) && (g.joined <==> Depth(tags[..|tags|]) > 0) && all == groups + [g]
    ensures |all| == 2 * |tags| + 1
    ensures forall k :: 0 <= k <= |tags| ==> GroupAt(tags, all, k)
  {
    hide Depth;
  }

  /** The text before tag `k` is joined exactly inside an open element; the tag itself stands alone. */
  ghost predicate GroupAt(tags: seq<GroupTag>, groups: seq<Group>, k: nat)
    requires k <= |tags| && |groups| == 2 * |tags| + 1
  {
    && (groups[2 * k].joined <==> Depth(tags[..k]) > 0)
    && (k < |tags| ==>
          && !groups[2 * k + 1].joined
          && groups[2 * k + 1].start == tags[k].start && groups[2 * k + 1].end == tags[k].end)
  }

  /** `_ooxml_groups`: the groups cover the document without gap or overlap; text is read as one exactly inside an open
      element, and tags stand alone. */
  method OoxmlGroups(tags: seq<GroupTag>, n: nat) returns (groups: seq<Group>)
    requires TagsIn(tags, n)
    ensures Consecutive(groups, 0, n) && |groups| == 2 * |tags| + 1
    ensures forall k :: 0 <= k <= |tags| ==> GroupAt(tags, groups, k)
  {
    hide *;
    groups := [];
    var last: nat, depth: nat := 0, 0;
    NoGroups(tags);
    for k := 0 to |tags|
      invariant last <= n && last == (if k > 0 then tags[k - 1].end else 0)
      invariant depth == Depth(tags[..k])
      invariant Consecutive(groups, 0, last) && GroupsOf(tags, k, groups)
    {
      TagAt(tags, n, k);
      DepthStep(tags, k);
      var tag := tags[k];
      var text, markup := Group(last, tag.start, depth > 0), Group(tag.start, tag.end, false);
      ConsecutiveGrow(groups, 0, last, text);
      ConsecutiveGrow(groups + [text], 0, tag.start, markup);
      GroupsGrow(tags, k, groups, text, markup);
      groups := groups + [text];
      if !tag.selfClosing {
        depth := if tag.closing then (if depth == 0 then 0 else depth - 1) else depth + 1;
      }
      groups := groups + [markup];
      last := tag.end;
    }
    ConsecutiveGrow(groups, 0, last, Group(last, n, depth > 0));
    ghost var before := groups;
    groups := groups + [Group(last, n, depth > 0)];
    LastGroup(tags, before, Group(last, n, depth > 0), groups);
  }

  // ---------------------------------------------------------------- a whole part

  /** What becomes of one group: its nodes are masked as one text or each on its own, and nothing else is changed. */
  ghost predicate Becomes(xml: Xml, rules: seq<Rule>, chunk: Text, joined: bool, out: Text, hits: nat)
    requires xml.Valid() && AllValid(rules)
  {
    var nodes := xml.textNodes(chunk);
    exists values: seq<Text> ::
      && |values| == |nodes|
      && Ordered(Edits(nodes, values), 0, |chunk|) && out == Replace(chunk, Edits(nodes, values), 0)
      && (if joined then TogetherWith(xml, rules, chunk, values, hits) else ApartWith(xml, rules, chunk, values, hits))
  }

  ghost predicate TogetherWith(xml: Xml, rules: seq<Rule>, chunk: Text, values: seq<Text>, hits: nat)
    requires xml.Valid() && AllValid(rules)
  {
    exists spans, replaced ::
      MaskedTogether(xml, chunk, xml.textNodes(chunk), rules, spans, replaced, values) && hits == |spans|
  }

  ghost predicate ApartWith(xml: Xml, rules: seq<Rule>, chunk: Text, values: seq<Text>, hits: nat)
    requires xml.Valid() && AllValid(rules)
  {
    exists counts :: MaskedApart(xml, chunk, xml.textNodes(chunk), rules, counts, values) && hits == Sum(counts)
  }

  /** `_mask_ooxml_fragment`. */
  method MaskFragment(xml: Xml, chunk: Text, rules: seq<Rule>, joined: bool) returns (out: Text, hits: nat)
    requires xml.Valid() && AllValid(rules)
    ensures Becomes(xml, rules, chunk, joined, out, hits)
    ensures hits == 0 ==> out == chunk
  {
    hide *;
    NodesFit(xml, chunk);
    if joined {
      var result, count, values, replaced, spans := MaskJoined(xml, chunk, xml.textNodes(chunk), rules);
      IsTogether(xml, rules, chunk, result, values, spans, replaced);
      return result, count;
    }
    var result, count, values, counts := MaskSingly(xml, chunk, xml.textNodes(chunk), rules);
    IsApart(xml, rules, chunk, result, values, counts);
    return result, count;
  }

  lemma {:induction false} NodesFit(xml: Xml, chunk: Text)
    requires xml.Valid()
    ensures NodesIn(xml.textNodes(chunk), |chunk|) && TagsIn(xml.groupTags(chunk), |chunk|)
  {
  }

  lemma {:induction false} IsTogether(xml: Xml, rules: seq<Rule>, chunk: Text, out: Text, values: seq<Text>,
                                      spans: seq<Edit<point>>, replaced: map<nat, Text>)
    requires xml.Valid() && AllValid(rules) && NodesIn(xml.textNodes(chunk), |chunk|) && |values| == |xml.textNodes(chunk)|
    requires MaskedTogether(xml, chunk, xml.textNodes(chunk), rules, spans, replaced, values)
    requires Ordered(Edits(xml.textNodes(chunk), values), 0, |chunk|)
    requires out == Replace(chunk, Edits(xml.textNodes(chunk), values), 0)
    ensures Becomes(xml, rules, chunk, true, out, |spans|)
  {
    hide MaskedTogether, Ordered, Replace, Edits, AllValid;
    assert TogetherWith(xml, rules, chunk, values, |spans|);
  }

  lemma {:induction false} IsApart(xml: Xml, rules: seq<Rule>, chunk: Text, out: Text, values: seq<Text>, counts: seq<nat>)
    requires xml.Valid() && AllValid(rules) && NodesIn(xml.textNodes(chunk), |chunk|) && |values| == |xml.textNodes(chunk)|
    requires MaskedApart(xml, chunk, xml.textNodes(chunk), rules, counts, values)
    requires Ordered(Edits(xml.textNodes(chunk), values), 0, |chunk|)
    requires out == Replace(chunk, Edits(xml.textNodes(chunk), values), 0)
    ensures Becomes(xml, rules, chunk, false, out, Sum(counts))
  {
    hide MaskedApart, Ordered, Replace, Edits, AllValid, Sum;
    assert ApartWith(xml, rules, chunk, values, Sum(counts));
  }

  /** The text of a group. */
  function Chunk(part: Text, g: Group): Text
    requires g.start <= g.end <= |part|
  {
    part[g.start..g.end]
  }

  ghost predicate GroupsInside(groups: seq<Group>, n: nat) {
    forall k :: 0 <= k < |groups| ==> groups[k].start <= groups[k].end <= n
  }

  /** The first groups have become what they should. */
  ghost predicate BecomeUpto(xml: Xml, part: Text, rules: seq<Rule>, groups: seq<Group>, pieces: seq<Text>, counts: seq<nat>)
    requires xml.Valid() && AllValid(rules)
  {
    && GroupsInside(groups, |part|) && |pieces| == |counts| <= |groups|
    && forall k :: 0 <= k < |pieces| ==>
         Becomes(xml, rules, Chunk(part, groups[k]), groups[k].joined, pieces[k], counts[k])
  }

  /** `_mask_ooxml_part`: the part is its groups in order, each of them what it becomes; without a hit it is as it was. */
  method MaskPart(xml: Xml, part: Text, rules: seq<Rule>)
    returns (out: Text, hits: nat, ghost groups: seq<Group>, ghost pieces: seq<Text>, ghost counts: seq<nat>)
    requires xml.Valid() && AllValid(rules)
    ensures Consecutive(groups, 0, |part|) && |groups| == 2 * |xml.groupTags(part)| + 1
    ensures forall k :: 0 <= k <= |xml.groupTags(part)| ==> GroupAt(xml.groupTags(part), groups, k)
    ensures BecomeUpto(xml, part, rules, groups, pieces, counts) && |pieces| == |groups|
    ensures out == Join(pieces) && hits == Sum(counts)
    ensures hits == 0 ==> out == part
  {
    hide *;
    NodesFit(xml, part);
    var all := OoxmlGroups(xml.groupTags(part), |part|);
    groups := all;
    out, hits, pieces, counts := [], 0, [], [];
    ghost var last: nat := 0;
    JoinNone<point>();
    SumGrow([], 0);
    BecomeNone(xml, part, rules, all);
    for k := 0 to |all|
      invariant |pieces| == k && BecomeUpto(xml, part, rules, all, pieces, counts)
      invariant out == Join(pieces) && hits == Sum(counts)
      invariant last == (if k < |all| then all[k].start else |part|) <= |part|
      invariant hits == 0 ==> out == part[..last]
    {
      GroupFits(all, |part|, k);
      var piece, count := MaskFragment(xml, Chunk(part, all[k]), rules, all[k].joined);
      BecomeGrow(xml, part, rules, all, pieces, counts, piece, count);
      JoinGrow(pieces, piece);
      SumGrow(counts, count);
      PrefixGrow(part, all[k]);
      out := out + piece;
      hits := hits + count;
      pieces := pieces + [piece];
      counts := counts + [count];
      last := all[k].end;
    }
    assert part[..|part|] == part;
  }

  lemma {:induction false} PrefixGrow(part: Text, g: Group)
    requires g.start <= g.end <= |part|
    ensures part[..g.start] + Chunk(part, g) == part[..g.end]
  {
  }

  lemma {:induction false} GroupFits(groups: seq<Group>, n: nat, k: nat)
    requires Consecutive(groups, 0, n) && k < |groups|
    ensures groups[k].start <= groups[k].end <= n
    ensures groups[k].end == if k + 1 < |groups| then groups[k + 1].start else n
  {
    ConsecutiveInside(groups, 0, n, k);
    if k + 1 < |groups| { assert groups[k].end == groups[k + 1].start; }
  }

  lemma {:induction false} ConsecutiveInside(groups: seq<Group>, from: nat, n: nat, k: nat)
    requires Consecutive(groups, from, n) && k < |groups|
    ensures groups[k].end <= n
    decreases |groups| - k
  {
    if k + 1 < |groups| {
      ConsecutiveInside(groups, from, n, k + 1);
      assert groups[k].end == groups[k + 1].start;
    }
  }

  lemma {:induction false} BecomeNone(xml: Xml, part: Text, rules: seq<Rule>, groups: seq<Group>)
    requires xml.Valid() && AllValid(rules) && Consecutive(groups, 0, |part|)
    ensures BecomeUpto(xml, part, rules, groups, [], [])
    ensures groups != [] ==> groups[0].start == 0
    ensures groups == [] ==> |part| == 0
  {
    forall k | 0 <= k < |groups|
      ensures groups[k].start <= groups[k].end <= |part|
    {
      ConsecutiveInside(groups, 0, |part|, k);
    }
  }

  lemma {:induction false} BecomeGrow(xml: Xml, part: Text, rules: seq<Rule>, groups: seq<Group>, pieces: seq<Text>,
                                      counts: seq<nat>, piece: Text, count: nat)
    requires xml.Valid() && AllValid(rules) && BecomeUpto(xml, part, rules, groups, pieces, counts) && |pieces| < |groups|
    requires groups[|pieces|].start <= groups[|pieces|].end <= |part|
    requires Becomes(xml, rules, Chunk(part, groups[|pieces|]), groups[|pieces|].joined, piece, count)
    ensures BecomeUpto(xml, part, rules, groups, pieces + [piece], counts + [count])
  {
    hide Becomes;
  }
}
