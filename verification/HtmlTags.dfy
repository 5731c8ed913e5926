/** The end of a tag, character by character (files.py `_TagScanner`): a reader with one state finds it where the attribute
    loop does. */
module HtmlTags {
  import opened Base
  import opened HtmlScan

  /** In the tag name; between attributes; in an attribute name; behind one; behind its `=`; in a value without quotes, in
      one with quotes, and behind a quote that is never closed. */
  datatype State = Name | Between | Attr | Behind | Equals | Bare | Quoted(quote: point) | Unclosed

  predicate Quote(c: point) { c == '"' as int || c == '\'' as int }

  /** The state behind the character at `i`, unless it ends the tag. */
  ghost function Next(document: Text, space: point -> bool, i: nat, state: State): State
    requires i < |document|
  {
    var c := document[i];
    match state
    case Name => if space(c) || c == '/' as int then Between else Name
    case Between => if space(c) || c == '/' as int then Between else Attr
    case Attr => if space(c) then Behind else if c == '=' as int then Equals else if c == '/' as int then Between else Attr
    case Behind => if space(c) then Behind else if c == '=' as int then Equals else if c == '/' as int then Between else Attr
    case Equals =>
      if space(c) then Equals
      else if !Quote(c) then Bare
      else if c in document[i + 1..] then Quoted(c)
      else Unclosed
    case Bare => if space(c) then Between else Bare
    case Quoted(quote) => if c == quote then Between else state
    case Unclosed => Unclosed
  }

  /** The tag ends behind the first `>` that does not lie in a value with quotes. */
  ghost function Read(document: Text, space: point -> bool, i: nat, state: State): nat
    requires i <= |document|
    decreases |document| - i
  {
    if i == |document| then i
    else if document[i] == '>' as int && !state.Quoted? then i + 1
    else Read(document, space, i + 1, Next(document, space, i, state))
  }

  /** White space is none of the marks of a tag. */
  ghost predicate Spaces(space: point -> bool) {
    !space('>' as int) && !space('/' as int) && !space('=' as int) && forall c :: Quote(c) ==> !space(c)
  }

  /** The character at `i` is passed over. */
  ghost predicate Stays(document: Text, space: point -> bool, i: nat, state: State)
    requires i < |document|
  {
    (document[i] == '>' as int ==> state.Quoted?) && Next(document, space, i, state) == state
  }

  lemma {:induction false} ReadSkip(document: Text, space: point -> bool, keep: point -> bool, i: nat, state: State)
    requires i <= |document| && forall k :: i <= k < |document| && keep(document[k]) ==> Stays(document, space, k, state)
    ensures Read(document, space, i, state) == Read(document, space, SkipWhile(document, keep, i), state)
    decreases |document| - i
  {
    hide Next;
    if i < |document| && keep(document[i]) { ReadSkip(document, space, keep, i + 1, state); }
  }

  lemma {:induction false} ReadUpto(document: Text, space: point -> bool, i: nat, upto: nat, state: State)
    requires i <= upto <= |document| && forall k :: i <= k < upto ==> Stays(document, space, k, state)
    ensures Read(document, space, i, state) == Read(document, space, upto, state)
    decreases upto - i
  {
    hide Next;
    if i < upto {
      assert Stays(document, space, i, state);
      ReadUpto(document, space, i + 1, upto, state);
    }
  }

  /** At a character that is passed over in neither state, and next to which both go on alike. */
  lemma {:induction false} ReadAlike(document: Text, space: point -> bool, i: nat, a: State, b: State)
    requires i <= |document| && !a.Quoted? && !b.Quoted?
    requires i < |document| && document[i] != '>' as int ==> Next(document, space, i, a) == Next(document, space, i, b)
    ensures Read(document, space, i, a) == Read(document, space, i, b)
  {
    hide Next;
  }

  lemma {:induction false} QuotedReads(document: Text, space: point -> bool, v: nat)
    requires v < |document| && Quote(document[v]) && Spaces(space)
    ensures match QuotedValue(document, v)
            case Done(end) => Read(document, space, v, Equals) == end
            case Next(i) => i <= |document| && Read(document, space, v, Equals) == Read(document, space, i, Between)
  {
    hide Find;
    var q := document[v];
    FindIsFirst(document, q, v + 1);
    var close := Find(document, q, v + 1);
    var after := document[v + 1..];
    if close.Some? {
      assert after[close.value - (v + 1)] == q;
      ReadUpto(document, space, v + 1, close.value, Quoted(q));
    } else {
      assert forall k :: 0 <= k < |after| ==> after[k] == document[v + 1 + k];
      var gt := Find(document, GT, v);
      FindIsFirst(document, GT, v);
      ReadUpto(document, space, v + 1, if gt.Some? then gt.value else |document|, Unclosed);
    }
  }

  lemma {:induction false} ValueReads(document: Text, space: point -> bool, name: nat)
    requires name <= |document| && Spaces(space)
    ensures match AfterName(document, space, name)
            case Done(end) => Read(document, space, name, Behind) == end
            case Next(i) => i <= |document| && Read(document, space, name, Behind) == Read(document, space, i, Between)
  {
    hide SkipWhile, QuotedValue, Read;
    ReadSkip(document, space, space, name, Behind);
    var j := SkipWhile(document, space, name);
    if j < |document| && document[j] == EQUALS {
      ReadOne(document, space, j, Behind);
      ReadSkip(document, space, space, j + 1, Equals);
      var v := SkipWhile(document, space, j + 1);
      if v < |document| && Quote(document[v]) {
        QuotedReads(document, space, v);
      } else {
        ReadAlike(document, space, v, Equals, Bare);
        ReadSkip(document, space, ValueChars(space), v, Bare);
        ReadAlike(document, space, SkipWhile(document, ValueChars(space), v), Bare, Between);
      }
    } else {
      ReadAlike(document, space, j, Behind, Between);
    }
  }

  lemma {:induction false} ReadOne(document: Text, space: point -> bool, i: nat, state: State)
    requires i < |document| && document[i] != '>' as int
    ensures Read(document, space, i, state) == Read(document, space, i + 1, Next(document, space, i, state))
  {
  }

  /** One round of the attribute loop. */
  lemma {:induction false} RoundReads(document: Text, space: point -> bool, i: nat)
    requires i < |document| && Spaces(space)
    ensures match OneRound(document, space, i)
            case Done(end) => Read(document, space, i, Between) == end
            case Next(j) => j <= |document| && Read(document, space, i, Between) == Read(document, space, j, Between)
  {
    hide SkipWhile, AfterName, Read;
    ReadSkip(document, space, space, i, Between);
    var k := SkipWhile(document, space, i);
    ReadEnds(document, space, k, Between);
    if k < |document| && document[k] != GT {
      ReadOne(document, space, k, Between);
      if document[k] != SLASH {
        ReadSkip(document, space, AttrChars(space), k + 1, Attr);
        var name := SkipWhile(document, AttrChars(space), k + 1);
        ReadAlike(document, space, name, Attr, Behind);
        ValueReads(document, space, name);
      }
    }
  }

  lemma {:induction false} ReadEnds(document: Text, space: point -> bool, i: nat, state: State)
    requires i <= |document| && !state.Quoted?
    ensures i == |document| ==> Read(document, space, i, state) == i
    ensures i < |document| && document[i] == '>' as int ==> Read(document, space, i, state) == i + 1
  {
  }

  lemma {:induction false} LoopReads(document: Text, space: point -> bool, i: nat)
    requires i <= |document| && Spaces(space)
    ensures TagEndFrom(document, space, i) == Read(document, space, i, Between)
    decreases |document| - i
  {
    hide OneRound, Next;
    if i < |document| {
      RoundReads(document, space, i);
      var r := OneRound(document, space, i);
      if r.Next? { LoopReads(document, space, r.i); }
    }
  }

  /** The loop over the attributes and the reader find the same end. */
  lemma {:induction false} TagEndIsRead(document: Text, space: point -> bool, pos: nat)
    requires pos <= |document| && Spaces(space)
    ensures TagEnd(document, space, pos) == Read(document, space, pos, Name)
  {
    hide SkipWhile, Read, TagEndFrom;
    ReadSkip(document, space, NameChars(space), pos, Name);
    var i := SkipWhile(document, NameChars(space), pos);
    ReadAlike(document, space, i, Name, Between);
    LoopReads(document, space, i);
  }
}
