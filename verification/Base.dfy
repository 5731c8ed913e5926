/** Small shared vocabulary: options, results, and rewriting a sequence at sorted places. */
module Base {

  datatype Option<+T> = None | Some(value: T)

  datatype Result<+T, +E> = Ok(value: T) | Err(error: E)

  type byte = b: nat | b < 0x100

  /** A code point; Python strings may hold lone surrogates. */
  type point = p: nat | p < 0x11_0000

  type Text = seq<point>

  function Max(a: nat, b: nat): nat { if a < b then b else a }
  function Min(a: nat, b: nat): nat { if a < b then a else b }

  /** `s[lo:hi]`, as Python cuts it. */
  function Slice<T>(s: seq<T>, lo: nat, hi: nat): (part: seq<T>)
    ensures |part| <= |s|
  {
    if lo >= |s| || hi <= lo then [] else s[lo..if hi <= |s| then hi else |s|]
  }

  // ---------------------------------------------------------------- joining pieces

  function Join<T>(pieces: seq<seq<T>>): seq<T> {
    if pieces == [] then [] else pieces[0] + Join(pieces[1..])
  }

  lemma {:induction false} JoinAppend<T>(a: seq<seq<T>>, b: seq<seq<T>>)
    ensures Join(a + b) == Join(a) + Join(b)
  {
    if a == [] {
      assert a + b == b;
    } else {
      assert (a + b)[1..] == a[1..] + b && (a + b)[0] == a[0];
      JoinAppend(a[1..], b);
    }
  }

  lemma {:induction false} JoinGrow<T>(pieces: seq<seq<T>>, piece: seq<T>)
    ensures Join(pieces + [piece]) == Join(pieces) + piece
  {
    JoinAppend(pieces, [piece]);
    JoinOne(piece);
  }

  lemma {:induction false} JoinOne<T>(piece: seq<T>)
    ensures Join([piece]) == piece
  {
    assert [piece][1..] == [];
    assert piece + [] == piece;
  }

  lemma {:induction false} JoinNone<T>()
    ensures Join<T>([]) == []
  {
  }

  lemma {:induction false} JoinStep<T>(pieces: seq<seq<T>>, k: nat)
    requires k < |pieces|
    ensures Join(pieces[..k + 1]) == Join(pieces[..k]) + pieces[k]
  {
    assert pieces[..k + 1] == pieces[..k] + [pieces[k]];
    JoinGrow(pieces[..k], pieces[k]);
  }

  function Sum(counts: seq<nat>): nat {
    if counts == [] then 0 else Sum(counts[..|counts| - 1]) + counts[|counts| - 1]
  }

  lemma {:induction false} SumGrow(counts: seq<nat>, n: nat)
    ensures Sum(counts + [n]) == Sum(counts) + n
    ensures Sum([]) == 0
  {
    assert (counts + [n])[..|counts|] == counts;
  }

  lemma {:induction false} Times(a: nat, b: nat, c: nat)
    requires a <= b
    ensures a * c <= b * c
  {
  }

  // ---------------------------------------------------------------- rewriting at sorted places

  /** Replace the elements `start..end` of a sequence by `mask`. */
  datatype Edit<+T> = Edit(start: nat, end: nat, mask: seq<T>)

  /** The edits lie in order inside `from..upto` and do not overlap. */
  ghost predicate Ordered<T>(edits: seq<Edit<T>>, from: nat, upto: nat) {
    if edits == [] then from <= upto
    else from <= edits[0].start <= edits[0].end && Ordered(edits[1..], edits[0].end, upto)
  }

  lemma {:induction false} OrderedBounds<T>(edits: seq<Edit<T>>, from: nat, upto: nat)
    requires Ordered(edits, from, upto)
    ensures from <= upto
    ensures edits != [] ==> edits[0].end <= upto
    ensures forall e :: e in edits ==> from <= e.start <= e.end <= upto
  {
    if edits != [] {
      OrderedBounds(edits[1..], edits[0].end, upto);
      assert forall e :: e in edits ==> e == edits[0] || e in edits[1..];
    }
  }

  /** The part of `s` from `from` on, with every edit carried out. */
  function Replace<T>(s: seq<T>, edits: seq<Edit<T>>, from: nat): seq<T>
    requires Ordered(edits, from, |s|)
  {
    if edits == [] then s[from..]
    else
      OrderedBounds(edits, from, |s|);
      s[from..edits[0].start] + edits[0].mask + Replace(s, edits[1..], edits[0].end)
  }

  lemma {:induction false} Assoc<T>(a: seq<T>, b: seq<T>, c: seq<T>)
    ensures (a + b) + c == a + (b + c)
  {
  }

  lemma {:induction false} Assoc4<T>(a: seq<T>, b: seq<T>, c: seq<T>, d: seq<T>)
    ensures a + (b + c + d) == a + b + c + d
  {
  }

  lemma {:induction false} JoinSlices<T>(s: seq<T>, a: nat, b: nat, c: nat)
    requires a <= b <= c <= |s|
    ensures s[a..b] + s[b..c] == s[a..c]
  {
  }

  /** Elements before the first edit can be split off. */
  lemma {:induction false} ReplaceSkip<T>(s: seq<T>, edits: seq<Edit<T>>, from: nat, next: nat)
    requires from <= next <= |s| && Ordered(edits, next, |s|)
    ensures Ordered(edits, from, |s|)
    ensures Replace(s, edits, from) == s[from..next] + Replace(s, edits, next)
  {
    if edits == [] {
      assert s[from..] == s[from..next] + s[next..];
    } else {
      OrderedBounds(edits, next, |s|);
      var start, rest := edits[0].start, edits[0].mask + Replace(s, edits[1..], edits[0].end);
      JoinSlices(s, from, next, start);
      Assoc(s[from..start], edits[0].mask, Replace(s, edits[1..], edits[0].end));
      Assoc(s[next..start], edits[0].mask, Replace(s, edits[1..], edits[0].end));
      Assoc(s[from..next], s[next..start], rest);
    }
  }

  /** The next edit of a loop over the edits. */
  lemma {:induction false} ReplaceStep<T>(s: seq<T>, edits: seq<Edit<T>>, k: nat, from: nat)
    requires k < |edits| && Ordered(edits[k..], from, |s|)
    ensures from <= edits[k].start <= edits[k].end <= |s| && Ordered(edits[k + 1..], edits[k].end, |s|)
    ensures Replace(s, edits[k..], from) == s[from..edits[k].start] + edits[k].mask + Replace(s, edits[k + 1..], edits[k].end)
  {
    OrderedBounds(edits[k..], from, |s|);
    assert edits[k..][1..] == edits[k + 1..];
  }

  lemma {:induction false} ReplaceNone<T>(s: seq<T>, from: nat)
    requires from <= |s|
    ensures Ordered<T>([], from, |s|) && Replace(s, [], from) == s[from..]
  {
  }

  ghost predicate Covered<T>(edits: seq<Edit<T>>, i: int) {
    exists e :: e in edits && e.start <= i < e.end
  }

  /** Sorted, non-empty and non-overlapping: the shape every caller of the masking engine relies on. */
  ghost predicate DisjointSpans<T>(edits: seq<Edit<T>>, n: nat) {
    && (forall k :: 0 <= k < |edits| ==> edits[k].start < edits[k].end <= n)
    && (forall j, k :: 0 <= j < k < |edits| ==> edits[j].end <= edits[k].start)
  }

  lemma {:induction false} SpansAreOrdered<T>(edits: seq<Edit<T>>, from: nat, n: nat)
    requires DisjointSpans(edits, n) && from <= n
    requires edits != [] ==> from <= edits[0].start
    ensures Ordered(edits, from, n)
  {
    if edits != [] {
      SpansAreOrdered(edits[1..], edits[0].end, n);
    }
  }

  /** `part` lies in `s` at `at`. */
  ghost predicate HasSlice<T>(s: seq<T>, at: nat, part: seq<T>) {
    at + |part| <= |s| && s[at..at + |part|] == part
  }

  lemma {:induction false} SliceGrow<T>(s: seq<T>, more: seq<T>, at: nat, part: seq<T>)
    requires HasSlice(s, at, part)
    ensures HasSlice(s + more, at, part)
  {
  }

  lemma {:induction false} SliceEnd<T>(s: seq<T>, part: seq<T>)
    ensures HasSlice(s + part, |s|, part)
  {
  }

  /** Slices of slices. */
  lemma {:induction false} SliceInside<T>(s: seq<T>, at: nat, part: seq<T>, at': nat, part': seq<T>)
    requires HasSlice(s, at, part) && HasSlice(part, at', part')
    ensures HasSlice(s, at + at', part')
  {
    var lo, hi := at + at', at + at' + |part'|;
    assert forall i :: 0 <= i < |part| ==> part[i] == s[at + i];
    assert forall i :: 0 <= i < |part'| ==> part'[i] == part[at' + i];
    assert s[lo..hi] == part';
  }

  lemma {:induction false} SlicePair<T>(a: seq<T>, b: seq<T>)
    ensures HasSlice(a + b, 0, a) && HasSlice(a + b, |a|, b)
  {
    assert (a + b)[0..|a|] == a;
  }

  lemma {:induction false} InnerField<T>(raw: seq<T>, at: nat, a: seq<T>, b: seq<T>)
    requires HasSlice(raw, at, a + b)
    ensures HasSlice(raw, at, a) && HasSlice(raw, at + |a|, b)
  {
    SlicePair(a, b);
    SliceInside(raw, at, a + b, 0, a);
    SliceInside(raw, at, a + b, |a|, b);
  }

  lemma {:induction false} SliceHead<T>(s: seq<T>, at: nat, x: T)
    requires HasSlice(s, at, [x])
    ensures at < |s| && s[at] == x
  {
    assert s[at] == s[at..at + 1][0];
  }
}
