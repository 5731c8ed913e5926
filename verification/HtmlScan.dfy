/** Finding the end of a tag (files.py `_TagScanner`): attributes are read as a browser reads them, and the searches for
    closing quotes are remembered. */
module HtmlScan {
  import opened Base

  const DOUBLE_QUOTE: point := 34
  const SINGLE_QUOTE: point := 39
  const SLASH: point := 47
  const LT: point := 60
  const EQUALS: point := 61
  const GT: point := 62

  /** `document.find(ch, from)`; None where Python gives -1. */
  function Find(document: Text, ch: point, from: nat): (at: Option<nat>)
    ensures at.Some? ==> from <= at.value < |document| && document[at.value] == ch
    decreases |document| - from
  {
    if from >= |document| then None
    else if document[from] == ch then Some(from)
    else Find(document, ch, from + 1)
  }

  /** The first occurrence, and None only where there is none. */
  lemma {:induction false} FindIsFirst(document: Text, ch: point, from: nat)
    ensures var at := Find(document, ch, from);
            forall i :: from <= i < (if at.Some? then at.value else |document|) ==> document[i] != ch
    decreases |document| - from
  {
    if from < |document| && document[from] != ch { FindIsFirst(document, ch, from + 1); }
  }

  /** Searching from any place up to the hit finds the same hit. */
  lemma {:induction false} FindLater(document: Text, ch: point, from: nat, later: nat)
    requires from <= later && (Find(document, ch, from).Some? ==> later <= Find(document, ch, from).value)
    ensures Find(document, ch, later) == Find(document, ch, from)
    decreases later - from
  {
    if from < later {
      if from < |document| { FindLater(document, ch, from + 1, later); }
    }
  }

  /** The end of the characters from `at` on for which `keep` holds. */
  function SkipWhile(document: Text, keep: point -> bool, at: nat): (end: nat)
    requires at <= |document|
    ensures at <= end <= |document|
    ensures at < |document| && keep(document[at]) ==> at < end
    ensures end < |document| ==> !keep(document[end])
    decreases |document| - at
  {
    if at < |document| && keep(document[at]) then SkipWhile(document, keep, at + 1) else at
  }

  /** Characters of a tag name, of an attribute name behind its first one, and of a value without quotes. `space` is
      the white space of the regular expressions. */
  function NameChars(space: point -> bool): point -> bool { (c: point) => !space(c) && c != SLASH && c != GT }
  function AttrChars(space: point -> bool): point -> bool { (c: point) => !space(c) && c != SLASH && c != GT && c != EQUALS }
  function ValueChars(space: point -> bool): point -> bool { (c: point) => !space(c) && c != GT }

  /** What one round of the attribute loop finds: the end of the tag, or where to go on. */
  datatype Round = Done(end: nat) | Next(i: nat)

  /** A value in quotes: skip it; without its closing quote the tag ends at the next `>`. */
  function QuotedValue(document: Text, v: nat): (r: Round)
    requires v < |document|
    ensures r.Done? ==> v <= r.end <= |document|
    ensures r.Next? ==> v < r.i <= |document|
  {
    match Find(document, document[v], v + 1)
    case Some(close) => Next(close + 1)
    case None =>
      match Find(document, GT, v)
      case Some(gt) => Done(gt + 1)
      case None => Done(|document|)
  }

  /** What follows an attribute name that ends at `name`: a value, or nothing. */
  function AfterName(document: Text, space: point -> bool, name: nat): (r: Round)
    requires name <= |document|
    ensures r.Done? ==> name <= r.end <= |document|
    ensures r.Next? ==> name <= r.i <= |document|
  {
    var j := SkipWhile(document, space, name);
    if j < |document| && document[j] == EQUALS then
      var v := SkipWhile(document, space, j + 1);
      if v < |document| && (document[v] == DOUBLE_QUOTE || document[v] == SINGLE_QUOTE) then QuotedValue(document, v)
      else Next(SkipWhile(document, ValueChars(space), v))
    else Next(j)
  }

  function OneRound(document: Text, space: point -> bool, i0: nat): (r: Round)
    requires i0 < |document|
    ensures r.Done? ==> i0 <= r.end <= |document|
    ensures r.Next? ==> i0 < r.i <= |document|
  {
    var i := SkipWhile(document, space, i0);
    if i >= |document| then Done(|document|)
    else if document[i] == GT then Done(i + 1)
    else if document[i] == SLASH then Next(i + 1)
    else AfterName(document, space, SkipWhile(document, AttrChars(space), i + 1))
  }

  /** The end of the tag, read attribute by attribute from `i` on. */
  function TagEndFrom(document: Text, space: point -> bool, i: nat): (end: nat)
    requires i <= |document|
    ensures i <= end <= |document|
    decreases |document| - i
  {
    if i == |document| then i
    else match OneRound(document, space, i)
      case Done(end) => end
      case Next(j) => TagEndFrom(document, space, j)
  }

  /** `end`: the name first, then the attributes. */
  function TagEnd(document: Text, space: point -> bool, pos: nat): (end: nat)
    requires pos <= |document|
    ensures pos <= end <= |document|
  {
    TagEndFrom(document, space, SkipWhile(document, NameChars(space), pos))
  }

  class TagScanner {
    const document: Text
    const space: point -> bool
    /** For each quote the last search: where it began and what it found. */
    var found: map<point, (nat, Option<nat>)>

    /** Every remembered search is a true one. */
    ghost predicate Valid()
      reads this
    {
      forall q :: q in found ==> found[q].1 == Find(document, q, found[q].0)
    }

    constructor (document: Text, space: point -> bool)
      ensures Valid() && this.document == document && this.space == space
    {
      this.document := document;
      this.space := space;
      found := map[];
    }

    /** `_find`: with or without the memory, the answer is that of a plain forward search. */
    method FindQuote(quote: point, start: nat) returns (at: Option<nat>)
      requires Valid()
      modifies this
      ensures Valid() && at == Find(document, quote, start)
      ensures forall q :: q in old(found) && q != quote ==> q in found && found[q] == old(found)[q]
    {
      if quote in found {
        var hit := found[quote];
        if hit.0 <= start && (hit.1.None? || start <= hit.1.value) {
          FindLater(document, quote, hit.0, start);
          return hit.1;
        }
      }
      at := Find(document, quote, start);
      found := found[quote := (start, at)];
    }

    /** One round of the loop, with remembered searches. */
    method Attribute(i0: nat) returns (r: Round)
      requires Valid() && i0 < |document|
      modifies this
      ensures Valid() && r == OneRound(document, space, i0)
    {
      hide SkipWhile, NameChars, AttrChars, ValueChars;
      var i := SkipWhile(document, space, i0);
      if i >= |document| { return Done(|document|); }
      if document[i] == GT { return Done(i + 1); }
      if document[i] == SLASH { return Next(i + 1); }
      i := SkipWhile(document, AttrChars(space), i + 1);
      var j := SkipWhile(document, space, i);
      if j < |document| && document[j] == EQUALS {
        j := SkipWhile(document, space, j + 1);
        if j < |document| && (document[j] == DOUBLE_QUOTE || document[j] == SINGLE_QUOTE) {
          var close := FindQuote(document[j], j + 1);
          if close.None? {
            var gt := Find(document, GT, j);
            return Done(if gt.None? then |document| else gt.value + 1);
          }
          return Next(close.value + 1);
        }
        return Next(SkipWhile(document, ValueChars(space), j));
      }
      return Next(j);
    }

    /** `end`: the loop over the attributes. */
    method End(pos: nat) returns (end: nat)
      requires Valid() && pos <= |document|
      modifies this
      ensures Valid() && end == TagEnd(document, space, pos)
    {
      hide SkipWhile, NameChars, OneRound, Valid;
      var i := SkipWhile(document, NameChars(space), pos);
      while i < |document|
        invariant pos <= i <= |document| && Valid()
        invariant TagEndFrom(document, space, i) == TagEnd(document, space, pos)
        decreases |document| - i
      {
        var r := Attribute(i);
        if r.Done? { return r.end; }
        i := r.i;
      }
      return |document|;
    }
  }
}
