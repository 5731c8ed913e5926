/** The last phase of `find_masked_spans` (rules.py): from pieces and empty masks to the list of spans. */
module MaskedSpans {
  import opened Base
  import opened Rules
  import opened Spans

  // ---------------------------------------------------------------- the spans the blocks stand for

  /** The pieces joined. */
  function Bodies(parts: seq<Piece>): Text {
    if parts == [] then [] else Bodies(parts[..|parts| - 1]) + parts[|parts| - 1].body
  }

  ghost function SpanOf(b: Block): Edit<point> { Edit(b.lo, b.hi, Bodies(b.parts)) }

  ghost function Hidden(blocks: seq<Block>): seq<Edit<point>> {
    if blocks == [] then []
    else if blocks[0].root >= 0 then [SpanOf(blocks[0])] + Hidden(blocks[1..])
    else Hidden(blocks[1..])
  }

  lemma {:induction false} HiddenIs(blocks: seq<Block>)
    ensures forall s :: s in Hidden(blocks) <==> exists b :: b in blocks && b.root >= 0 && s == SpanOf(b)
  {
    if blocks != [] {
      HiddenIs(blocks[1..]);
      assert forall b :: b in blocks <==> b == blocks[0] || b in blocks[1..];
    }
  }

  lemma {:induction false} HiddenShape(blocks: seq<Block>, from: nat, upto: nat)
    requires Tiles(blocks, from, upto)
    ensures DisjointSpans(Hidden(blocks), upto) && Ordered(Hidden(blocks), from, upto)
    ensures forall s :: s in Hidden(blocks) ==> from <= s.start
  {
    if blocks != [] {
      var rest := Hidden(blocks[1..]);
      TilesBounds(blocks, from, upto);
      HiddenShape(blocks[1..], blocks[0].hi, upto);
      assert blocks[0] in blocks;
      if blocks[0].root >= 0 {
        DisjointCons(SpanOf(blocks[0]), rest, upto);
      } else {
        OrderedEarlier(rest, from, blocks[0].hi, upto);
      }
    }
  }

  lemma {:induction false} DisjointCons<T>(s: Edit<T>, rest: seq<Edit<T>>, upto: nat)
    requires s.start < s.end <= upto && DisjointSpans(rest, upto) && Ordered(rest, s.end, upto)
    requires forall r :: r in rest ==> s.end <= r.start
    ensures DisjointSpans([s] + rest, upto) && Ordered([s] + rest, s.start, upto)
  {
    var all := [s] + rest;
    assert all[1..] == rest;
    assert forall k :: 0 <= k < |rest| ==> s.end <= rest[k].start < rest[k].end <= upto;
    hide Ordered;
    OrderedCons(s, rest, upto);
    assert forall k :: 1 <= k < |all| ==> all[k] == rest[k - 1];
  }

  lemma {:induction false} OrderedCons<T>(s: Edit<T>, rest: seq<Edit<T>>, upto: nat)
    requires s.start <= s.end && Ordered(rest, s.end, upto)
    ensures Ordered([s] + rest, s.start, upto)
  {
    assert ([s] + rest)[1..] == rest;
  }

  lemma {:induction false} OrderedEarlier<T>(edits: seq<Edit<T>>, earlier: nat, from: nat, upto: nat)
    requires Ordered(edits, from, upto) && earlier <= from
    ensures Ordered(edits, earlier, upto)
  {
    OrderedBounds(edits, from, upto);
  }

  lemma {:induction false} BodiesAre(pieces: seq<Piece>)
    ensures Bodies(pieces) == Chars(Cells(pieces))
  {
    if pieces != [] {
      var front, last := pieces[..|pieces| - 1], pieces[|pieces| - 1];
      BodiesAre(front);
      assert pieces == front + [last];
      assert Chars(PieceCells(last)) == last.body;
      hide Cells, Chars, PieceCells;
      CellsSnoc(front, last);
      CharsConcat(Cells(front), PieceCells(last));
    }
  }

  lemma {:induction false} CharsOfMasks(parts: seq<Piece>)
    requires forall p :: p in parts ==> p.unit >= 0
    ensures Chars(Cells(parts)) == Bodies(parts)
    ensures forall c :: c in Cells(parts) ==> c.origin == None
  {
    if parts != [] {
      var front, last := parts[..|parts| - 1], parts[|parts| - 1];
      CharsOfMasks(front);
      assert parts == front + [last];
      assert last in parts && forall p :: p in front ==> p in parts;
      MaskPiece(last);
      hide Cells, Chars, PieceCells;
      CellsSnoc(front, last);
      CharsConcat(Cells(front), PieceCells(last));
    }
  }

  lemma {:induction false} MaskPiece(p: Piece)
    requires p.unit >= 0
    ensures Chars(PieceCells(p)) == p.body && forall c :: c in PieceCells(p) ==> c.origin == None
  {
  }

  lemma {:induction false} RawCells(text: Text, b: Block)
    requires b.lo <= b.hi <= |text| && b.parts == [Piece(-1, b.lo, text[b.lo..b.hi])]
    ensures Chars(Cells(b.parts)) == text[b.lo..b.hi]
    ensures |Cells(b.parts)| == b.hi - b.lo
    ensures forall i :: 0 <= i < b.hi - b.lo ==> Cells(b.parts)[i].origin == Some(b.lo + i)
  {
    var p := b.parts[0];
    assert b.parts[1..] == [];
    assert Cells(b.parts) == PieceCells(p) + [] == PieceCells(p);
    assert p.body == text[b.lo..b.hi];
    assert Chars(PieceCells(p)) == p.body;
  }

  lemma {:induction false} HiddenCons(b: Block, rest: seq<Block>)
    ensures Hidden([b] + rest) == if b.root >= 0 then [SpanOf(b)] + Hidden(rest) else Hidden(rest)
  {
    assert ([b] + rest)[1..] == rest;
  }

  lemma {:induction false} FlattenCons(b: Block, rest: seq<Block>)
    ensures Flatten([b] + rest) == b.parts + Flatten(rest)
    ensures Chars(Cells(Flatten([b] + rest))) == Chars(Cells(b.parts)) + Chars(Cells(Flatten(rest)))
    ensures Cells(Flatten([b] + rest)) == Cells(b.parts) + Cells(Flatten(rest))
  {
    hide Cells;
    assert ([b] + rest)[1..] == rest;
    CellsConcat(b.parts, Flatten(rest));
    CharsConcat(Cells(b.parts), Cells(Flatten(rest)));
  }

  lemma {:induction false} MasksAreMaskCells(cells: seq<Cell>)
    requires forall c :: c in cells ==> c.origin == None
    ensures cells == MaskCells(Chars(cells))
  {
    assert forall j :: 0 <= j < |cells| ==> cells[j] in cells && cells[j] == Cell(cells[j].ch, None);
  }

  /** What a masked block shows. */
  lemma {:induction false} MaskedBlockCells(text: Text, b: Block, k: Book)
    requires k.Sized() && BlockOk(b, text, k) && b.root >= 0
    ensures Cells(b.parts) == MaskCells(SpanOf(b).mask)
    ensures forall i: nat :: !Survives(Cells(b.parts), i)
  {
    CharsOfMasks(b.parts);
    MasksAreMaskCells(Cells(b.parts));
    assert forall j :: 0 <= j < |Cells(b.parts)| ==> Cells(b.parts)[j] in Cells(b.parts);
  }

  lemma {:induction false} RawBlockCells(text: Text, b: Block, k: Book)
    requires k.Sized() && BlockOk(b, text, k) && b.root < 0
    ensures b.lo <= b.hi <= |text| && Cells(b.parts) == Origins(text)[b.lo..b.hi]
    ensures forall i: nat :: Survives(Cells(b.parts), i) <==> b.lo <= i < b.hi
  {
    RawCells(text, b);
    forall j | 0 <= j < b.hi - b.lo ensures Cells(b.parts)[j] == Origins(text)[b.lo + j] {
      assert Cells(b.parts)[j].ch == Chars(Cells(b.parts))[j] == text[b.lo + j];
    }
    assert Cells(b.parts) == Origins(text)[b.lo..b.hi];
    forall i: nat | b.lo <= i < b.hi ensures Survives(Cells(b.parts), i) {
      assert Cells(b.parts)[i - b.lo].origin == Some(i);
    }
  }

  lemma {:induction false} ReplaceCons<T>(text: seq<T>, s: Edit<T>, rest: seq<Edit<T>>)
    requires s.start <= s.end && Ordered(rest, s.end, |text|)
    ensures Ordered([s] + rest, s.start, |text|)
    ensures Replace(text, [s] + rest, s.start) == s.mask + Replace(text, rest, s.end)
  {
    OrderedBounds(rest, s.end, |text|);
    var all, tail := [s] + rest, Replace(text, rest, s.end);
    assert all[1..] == rest && all[0] == s;
    assert Replace(text, all, s.start) == text[s.start..s.start] + s.mask + tail;
    assert text[s.start..s.start] + s.mask == s.mask;
  }

  lemma {:induction false} TilesCons(b: Block, rest: seq<Block>, from: nat, upto: nat)
    requires Tiles([b] + rest, from, upto)
    ensures b.lo == from < b.hi <= upto && Tiles(rest, b.hi, upto)
  {
    assert ([b] + rest)[1..] == rest;
    TilesBounds(rest, b.hi, upto);
  }

  lemma {:induction false} CellEditsCons(s: Edit<point>, rest: seq<Edit<point>>)
    ensures CellEdits([s] + rest) == [Edit(s.start, s.end, MaskCells(s.mask))] + CellEdits(rest)
  {
  }

  /** Splicing the spans into the original gives what the pieces show, character for character with its origin. */
  lemma {:induction false} SpliceIsCurrent(text: Text, blocks: seq<Block>, from: nat, k: Book)
    requires k.Sized() && Tiles(blocks, from, |text|)
    requires forall b :: b in blocks ==> BlockOk(b, text, k)
    ensures Ordered(Hidden(blocks), from, |text|) && Ordered(CellEdits(Hidden(blocks)), from, |text|)
    ensures Replace(Origins(text), CellEdits(Hidden(blocks)), from) == Cells(Flatten(blocks))
    decreases |blocks|
  {
    HiddenShape(blocks, from, |text|);
    CellEditsOrdered(Hidden(blocks), from, |text|);
    if blocks == [] {
      assert Origins(text)[from..] == [];
    } else {
      hide *;
      var b, rest := blocks[0], blocks[1..];
      var cells := Origins(text);
      assert blocks == [b] + rest;
      assert b in blocks;
      TilesCons(b, rest, from, |text|);
      SpliceIsCurrent(text, rest, b.hi, k);
      FlattenCons(b, rest);
      HiddenCons(b, rest);
      if b.root >= 0 {
        MaskedBlockCells(text, b, k);
        SpanOfIs(b);
        CellEditsCons(SpanOf(b), Hidden(rest));
        ReplaceCons(cells, Edit(b.lo, b.hi, MaskCells(SpanOf(b).mask)), CellEdits(Hidden(rest)));
      } else {
        RawBlockCells(text, b, k);
        ReplaceSkip(cells, CellEdits(Hidden(rest)), from, b.hi);
      }
    }
  }

  lemma {:induction false} SpanOfIs(b: Block)
    ensures SpanOf(b).start == b.lo && SpanOf(b).end == b.hi && SpanOf(b).mask == Bodies(b.parts)
  {
  }

  lemma {:induction false} CoveredCons(s: Edit<point>, rest: seq<Edit<point>>, i: int)
    ensures Covered([s] + rest, i) <==> (s.start <= i < s.end || Covered(rest, i))
  {
    assert s in [s] + rest;
    if Covered(rest, i) {
      var e :| e in rest && e.start <= i < e.end;
      assert e in [s] + rest;
    }
  }

  lemma {:induction false} CoveredAfter(blocks: seq<Block>, from: nat, upto: nat, i: int)
    requires Tiles(blocks, from, upto) && i < from
    ensures !Covered(Hidden(blocks), i)
  {
    HiddenShape(blocks, from, upto);
  }

  /** An original character lies outside every span exactly if it survives in the current text. */
  lemma {:induction false} OutsideIsSurvival(text: Text, blocks: seq<Block>, from: nat, k: Book, i: nat)
    requires k.Sized() && Tiles(blocks, from, |text|)
    requires forall b :: b in blocks ==> BlockOk(b, text, k)
    ensures Survives(Cells(Flatten(blocks)), i) <==> (from <= i < |text| && !Covered(Hidden(blocks), i))
    decreases |blocks|
  {
    if blocks == [] {
      assert Cells(Flatten(blocks)) == [];
    } else {
      hide *;
      var b, rest := blocks[0], blocks[1..];
      assert blocks == [b] + rest;
      assert b in blocks;
      TilesCons(b, rest, from, |text|);
      OutsideIsSurvival(text, rest, b.hi, k, i);
      FlattenCons(b, rest);
      HiddenCons(b, rest);
      SurvivesConcat(Cells(b.parts), Cells(Flatten(rest)), i);
      if i < b.hi {
        CoveredAfter(rest, b.hi, |text|, i);
      }
      if b.root >= 0 {
        MaskedBlockCells(text, b, k);
        SpanOfIs(b);
        CoveredCons(SpanOf(b), Hidden(rest), i);
      } else {
        RawBlockCells(text, b, k);
      }
    }
  }

  lemma {:induction false} SurvivesConcat(a: seq<Cell>, b: seq<Cell>, i: nat)
    ensures Survives(a + b, i) <==> Survives(a, i) || Survives(b, i)
  {
    if Survives(b, i) {
      var k :| 0 <= k < |b| && b[k].origin == Some(i);
      assert (a + b)[|a| + k].origin == Some(i);
    }
    if Survives(a, i) {
      var k :| 0 <= k < |a| && a[k].origin == Some(i);
      assert (a + b)[k].origin == Some(i);
    }
    if Survives(a + b, i) {
      var k :| 0 <= k < |a + b| && (a + b)[k].origin == Some(i);
      if k >= |a| { assert b[k - |a|].origin == Some(i); }
    }
  }

  // ---------------------------------------------------------------- gathering the spans

  /** A span gathered for root `r`: the span of its block, or an empty mask swallowed by another block. */
  ghost predicate SpanFor(s: Edit<point>, r: nat, k: Book, blocks: seq<Block>)
    requires k.Sized()
  {
    || (exists b :: b in blocks && b.root == r && s == SpanOf(b))
    || (r < |k.rt| && s == Edit(k.lo[r], k.hi[r], [])
        && (forall b :: b in blocks ==> b.root != r)
        && exists b :: b in blocks && Inside(b, k.lo[r], k.hi[r]))
  }

  ghost predicate Gathered(spans: seq<Edit<point>>, owners: seq<nat>, seen: set<nat>, k: Book, blocks: seq<Block>) {
    && k.Sized() && |owners| == |spans|
    && (forall i, j :: 0 <= i < j < |owners| ==> owners[i] != owners[j])
    && (forall r :: r in seen <==> r in owners)
    && (forall i :: 0 <= i < |spans| ==> SpanFor(spans[i], owners[i], k, blocks))
  }

  lemma {:induction false} GatherMore(spans: seq<Edit<point>>, owners: seq<nat>, seen: set<nat>, k: Book, blocks: seq<Block>,
                   s: Edit<point>, r: nat)
    requires Gathered(spans, owners, seen, k, blocks) && r !in seen && SpanFor(s, r, k, blocks)
    ensures Gathered(spans + [s], owners + [r], seen + {r}, k, blocks)
  {
  }

  /** The block whose parts come next. */
  lemma {:induction false} NextBlock(blocks: seq<Block>) returns (c: nat)
    requires Flatten(blocks) != []
    ensures c < |blocks| && blocks[c].parts != []
    ensures forall x :: 0 <= x < c ==> blocks[x].parts == []
    ensures Flatten(blocks) == blocks[c].parts + Flatten(blocks[c + 1..])
  {
    if blocks[0].parts != [] {
      c := 0;
    } else {
      c := NextBlock(blocks[1..]);
      c := c + 1;
      assert blocks[1..][c..] == blocks[c + 1..];
    }
  }

  /** A piece after the parts of block `c` belongs to another root. */
  lemma {:induction false} AfterBlock(text: Text, k: Book, blocks: seq<Block>, c: nat, p: Piece)
    requires k.Sized() && Tiles(blocks, 0, |text|) && (forall b :: b in blocks ==> BlockOk(b, text, k))
    requires c < |blocks| && blocks[c].root >= 0 && p in Flatten(blocks[c + 1..])
    ensures p.unit >= 0 ==> p.unit < |k.rt| && k.rt[p.unit] != blocks[c].root
  {
    var b := FlattenMember(blocks[c + 1..], p);
    assert b in blocks && blocks[c] in blocks;
    assert BlockOk(blocks[c], text, k) && BlockOk(b, text, k);
    PartBounds(b, text, k, p);
    hide Flatten, Tiles;
    assert blocks == blocks[..c + 1] + blocks[c + 1..];
    var m := TilesSplit(blocks[..c + 1], blocks[c + 1..], 0, |text|);
    TilesBounds(blocks[..c + 1], 0, m);
    TilesBounds(blocks[c + 1..], m, |text|);
    assert blocks[c] in blocks[..c + 1];
    assert blocks[c].lo < b.lo;
  }

  /** The piece at `j` is a part of block `c`, or has another root. */
  lemma {:induction false} RunPiece(text: Text, pieces: seq<Piece>, i: nat, j: nat, k: Book, blocks: seq<Block>, c: nat)
    requires Inv(text, pieces, k, blocks) && i <= j < |pieces| && c < |blocks|
    requires pieces[i..] == blocks[c].parts + Flatten(blocks[c + 1..])
    ensures j - i < |blocks[c].parts| ==> pieces[j] == blocks[c].parts[j - i]
    ensures j - i < |blocks[c].parts| && blocks[c].root >= 0 ==>
              0 <= pieces[j].unit < |k.rt| && k.rt[pieces[j].unit] == blocks[c].root
    ensures j - i < |blocks[c].parts| && blocks[c].root < 0 ==> pieces[j].unit < 0 && |blocks[c].parts| == 1
    ensures j - i >= |blocks[c].parts| && pieces[j].unit >= 0 && blocks[c].root >= 0 ==>
              pieces[j].unit < |k.rt| && k.rt[pieces[j].unit] != blocks[c].root
  {
    assert pieces[j] == pieces[i..][j - i];
    assert blocks[c] in blocks && BlockOk(blocks[c], text, k);
    if j - i < |blocks[c].parts| {
      assert blocks[c].parts[j - i] in blocks[c].parts;
      PartBounds(blocks[c], text, k, blocks[c].parts[j - i]);
    } else if blocks[c].root >= 0 {
      assert pieces[j] == Flatten(blocks[c + 1..])[j - i - |blocks[c].parts|];
      AfterBlock(text, k, blocks, c, pieces[j]);
    }
  }

  /** The pieces `i..e` are masks of one root, and later masks have other roots. */
  ghost predicate RunOf(pieces: seq<Piece>, i: nat, e: nat, root: nat, k: Book) {
    && i < e <= |pieces|
    && (forall j :: i <= j < |pieces| && pieces[j].unit >= 0 ==> pieces[j].unit < |k.rt|)
    && (forall j :: i <= j < e ==> pieces[j].unit >= 0 && k.rt[pieces[j].unit] == root)
    && (forall j :: e <= j < |pieces| && pieces[j].unit >= 0 ==> k.rt[pieces[j].unit] != root)
  }

  lemma {:induction false} BlockRun(text: Text, pieces: seq<Piece>, i: nat, k: Book, blocks: seq<Block>, c: nat)
    requires Inv(text, pieces, k, blocks) && i < |pieces| && c < |blocks|
    requires blocks[c].parts != [] && blocks[c].root >= 0
    requires pieces[i..] == blocks[c].parts + Flatten(blocks[c + 1..])
    ensures RunOf(pieces, i, i + |blocks[c].parts|, blocks[c].root, k)
    ensures pieces[i..i + |blocks[c].parts|] == blocks[c].parts
  {
    assert |pieces[i..]| >= |blocks[c].parts|;
    assert pieces[i..i + |blocks[c].parts|] == pieces[i..][..|blocks[c].parts|] == blocks[c].parts;
    forall j | i <= j < |pieces|
      ensures pieces[j].unit >= 0 ==> pieces[j].unit < |k.rt|
      ensures j < i + |blocks[c].parts| ==> pieces[j].unit >= 0 && k.rt[pieces[j].unit] == blocks[c].root
      ensures j >= i + |blocks[c].parts| && pieces[j].unit >= 0 ==> k.rt[pieces[j].unit] != blocks[c].root
    {
      RunPiece(text, pieces, i, j, k, blocks, c);
    }
  }

  lemma {:induction false} BodiesOfSlice(pieces: seq<Piece>, i: nat, j: nat)
    requires i <= j < |pieces|
    ensures Bodies(pieces[i..j + 1]) == Bodies(pieces[i..j]) + pieces[j].body
  {
    assert pieces[i..j + 1][..j - i] == pieces[i..j];
  }

  lemma {:induction false} BodiesOfOne(pieces: seq<Piece>, i: nat)
    requires i < |pieces|
    ensures Bodies(pieces[i..i + 1]) == pieces[i].body
  {
    BodiesOfSlice(pieces, i, i);
    assert pieces[i..i] == [];
  }

  /** The bodies of the pieces `i..j`. */
  ghost function Between(pieces: seq<Piece>, i: nat, j: nat): Text
    requires i <= j <= |pieces|
  {
    Bodies(pieces[i..j])
  }

  lemma {:induction false} BetweenNext(pieces: seq<Piece>, i: nat, j: nat)
    requires i <= j < |pieces|
    ensures Between(pieces, i, i + 1) == pieces[i].body
    ensures Between(pieces, i, j + 1) == Between(pieces, i, j) + pieces[j].body
  {
    BodiesOfOne(pieces, i);
    BodiesOfSlice(pieces, i, j);
  }

  lemma {:induction false} BetweenIs(pieces: seq<Piece>, i: nat, j: nat)
    requires i <= j <= |pieces|
    ensures Between(pieces, i, j) == Bodies(pieces[i..j])
  {
  }

  /** Collect the masks that share the root of the mask at `i`. */
  method CollectRun(pieces: seq<Piece>, i: nat, parent0: seq<nat>, ghost e: nat, ghost r: nat, ghost k: Book)
    returns (parent: seq<nat>, root: nat, body: Text, j: nat)
    requires Forest(parent0, k.rt) && |k.rt| == |parent0| && RunOf(pieces, i, e, r, k)
    ensures Forest(parent, k.rt) && root == r && j == e <= |pieces| && i < j
    ensures body == Bodies(pieces[i..j])
  {
    hide *;
    InRun(pieces, i, e, r, k, i);
    parent, root := Find(parent0, pieces[i].unit, k.rt);
    body := pieces[i].body;
    j := i + 1;
    BetweenNext(pieces, i, i);
    while j < |pieces| && pieces[j].unit >= 0
      invariant Forest(parent, k.rt) && |parent| == |k.rt| && i < j <= e
      invariant body == Between(pieces, i, j)
      decreases |pieces| - j
    {
      InRun(pieces, i, e, r, k, j);
      var other: nat;
      parent, other := Find(parent, pieces[j].unit, k.rt);
      if other != root {
        break;
      }
      BetweenNext(pieces, i, j);
      body := body + pieces[j].body;
      j := j + 1;
    }
    InRun(pieces, i, e, r, k, j);
    BetweenIs(pieces, i, j);
  }

  /** Whether piece `j` still belongs to the run. */
  lemma {:induction false} InRun(pieces: seq<Piece>, i: nat, e: nat, root: nat, k: Book, j: nat)
    requires RunOf(pieces, i, e, root, k) && i <= j
    ensures i < e <= |pieces|
    ensures j < e ==> pieces[j].unit >= 0
    ensures j < |pieces| && pieces[j].unit >= 0 ==> pieces[j].unit < |k.rt| && (j < e <==> k.rt[pieces[j].unit] == root)
  {
  }

  // ---------------------------------------------------------------- the list of spans

  /** All masked blocks before `c` that show something have been listed. */
  ghost predicate ListedUpTo(seen: set<nat>, blocks: seq<Block>, c: nat) {
    forall x :: 0 <= x < c && x < |blocks| && blocks[x].root >= 0 && blocks[x].parts != [] ==> blocks[x].root in seen
  }

  /** Only blocks before `c` have been listed. */
  ghost predicate ListedOnly(seen: set<nat>, blocks: seq<Block>, c: nat) {
    forall r :: r in seen ==> exists x :: 0 <= x < c && x < |blocks| && blocks[x].root == r
  }

  /** The blocks from `c` on that come before the next one with parts are all empty. */
  lemma {:induction false} SkipEmpty(text: Text, pieces: seq<Piece>, i: nat, k: Book, blocks: seq<Block>, c: nat) returns (d: nat)
    requires Inv(text, pieces, k, blocks) && i < |pieces| && c <= |blocks| && pieces[i..] == Flatten(blocks[c..])
    ensures c <= d < |blocks| && blocks[d].parts != []
    ensures forall x :: c <= x < d ==> blocks[x].parts == []
    ensures pieces[i..] == blocks[d].parts + Flatten(blocks[d + 1..])
    ensures pieces[i] == blocks[d].parts[0]
    ensures pieces[i].unit >= 0 <==> blocks[d].root >= 0
    ensures blocks[d].root < 0 ==> |blocks[d].parts| == 1
    ensures |pieces| - i >= |blocks[d].parts|
    ensures pieces[i + |blocks[d].parts|..] == Flatten(blocks[d + 1..])
  {
    d := NextBlock(blocks[c..]);
    d := c + d;
    assert blocks[c..][d - c + 1..] == blocks[d + 1..];
    assert forall x :: c <= x < d ==> blocks[x] == blocks[c..][x - c];
    RunPiece(text, pieces, i, i, k, blocks, d);
    assert pieces[i + |blocks[d].parts|..] == pieces[i..][|blocks[d].parts|..];
    assert blocks[d] in blocks && BlockOk(blocks[d], text, k);
  }

  lemma {:induction false} BlockSpan(text: Text, k: Book, pieces: seq<Piece>, blocks: seq<Block>, d: nat, body: Text)
    requires Inv(text, pieces, k, blocks) && d < |blocks| && blocks[d].root >= 0
    requires body == Bodies(blocks[d].parts)
    ensures blocks[d].root < |k.rt|
    ensures SpanFor(Edit(k.lo[blocks[d].root], k.hi[blocks[d].root], body), blocks[d].root, k, blocks)
    ensures forall x :: 0 <= x < d ==> blocks[x].root != blocks[d].root
  {
    assert blocks[d] in blocks && BlockOk(blocks[d], text, k);
    assert Edit(k.lo[blocks[d].root], k.hi[blocks[d].root], body) == SpanOf(blocks[d]);
    forall x | 0 <= x < d ensures blocks[x].root != blocks[d].root {
      assert blocks[x] in blocks && BlockOk(blocks[x], text, k);
      assert blocks == blocks[..x + 1] + blocks[x + 1..];
      var m := TilesSplit(blocks[..x + 1], blocks[x + 1..], 0, |text|);
      TilesBounds(blocks[..x + 1], 0, m);
      TilesBounds(blocks[x + 1..], m, |text|);
      assert blocks[x] in blocks[..x + 1] && blocks[d] == blocks[x + 1..][d - x - 1] && blocks[d] in blocks[x + 1..];
    }
  }

  lemma {:induction false} ListedStep(seen: set<nat>, blocks: seq<Block>, c: nat, d: nat)
    requires ListedUpTo(seen, blocks, c) && ListedOnly(seen, blocks, c) && c <= d < |blocks|
    requires forall x :: c <= x < d ==> blocks[x].parts == []
    ensures blocks[d].root < 0 ==> ListedUpTo(seen, blocks, d + 1) && ListedOnly(seen, blocks, d + 1)
    ensures blocks[d].root >= 0 ==>
              ListedUpTo(seen + {blocks[d].root}, blocks, d + 1) && ListedOnly(seen + {blocks[d].root}, blocks, d + 1)
    ensures (forall x :: 0 <= x < d ==> blocks[x].root != blocks[d].root) ==> blocks[d].root !in seen
  {
    forall r | r in seen ensures exists x :: 0 <= x < d + 1 && x < |blocks| && blocks[x].root == r {
      var x :| 0 <= x < c && x < |blocks| && blocks[x].root == r;
    }
  }

  /** The run of masks that begins at `i` is what block `d` shows. */
  method RunAt(ghost text: Text, pieces: seq<Piece>, i: nat, parent0: seq<nat>, ghost k: Book,
               ghost blocks: seq<Block>, ghost d: nat)
    returns (parent: seq<nat>, root: nat, body: Text, j: nat)
    requires Inv(text, pieces, k, blocks) && Forest(parent0, k.rt) && i < |pieces| && d < |blocks|
    requires blocks[d].parts != [] && blocks[d].root >= 0
    requires pieces[i..] == blocks[d].parts + Flatten(blocks[d + 1..])
    ensures Forest(parent, k.rt) && root == blocks[d].root && j == i + |blocks[d].parts| <= |pieces|
    ensures root < |k.rt| && SpanFor(Edit(k.lo[root], k.hi[root], body), root, k, blocks)
    ensures forall x :: 0 <= x < d ==> blocks[x].root != root
  {
    assert |k.rt| == |parent0|;
    hide *;
    BlockRun(text, pieces, i, k, blocks, d);
    ghost var e := i + |blocks[d].parts|;
    parent, root, body, j := CollectRun(pieces, i, parent0, e, blocks[d].root, k);
    assert pieces[i..j] == blocks[d].parts;
    BlockSpan(text, k, pieces, blocks, d, body);
  }

  /** First pass: one span for each run of masks that grew together. */
  method ListRuns(ghost text: Text, pieces: seq<Piece>, units: Units, ghost k: Book, ghost blocks: seq<Block>)
    returns (spans: seq<Edit<point>>, seen: set<nat>, parent: seq<nat>, ghost owners: seq<nat>)
    requires Inv(text, pieces, k, blocks) && Keeps(units, k)
    ensures Gathered(spans, owners, seen, k, blocks) && Forest(parent, k.rt)
    ensures ListedUpTo(seen, blocks, |blocks|)
  {
    hide *;
    spans, seen, parent, owners := [], {}, units.parent, [];
    var i := 0;
    ghost var c := 0;
    GatherNone(text, pieces, units, k, blocks);
    assert blocks[0..] == blocks && pieces[0..] == pieces;
    while i < |pieces|
      invariant i <= |pieces| && c <= |blocks| && pieces[i..] == Flatten(blocks[c..])
      invariant Forest(parent, k.rt)
      invariant Gathered(spans, owners, seen, k, blocks)
      invariant ListedUpTo(seen, blocks, c) && ListedOnly(seen, blocks, c)
      decreases |pieces| - i
    {
      ghost var d := SkipEmpty(text, pieces, i, k, blocks, c);
      ListedStep(seen, blocks, c, d);
      if pieces[i].unit < 0 {
        i := i + 1;
      } else {
        var root, body, j;
        parent, root, body, j := RunAt(text, pieces, i, parent, k, blocks, d);
        GatherMore(spans, owners, seen, k, blocks, Edit(units.lo[root], units.hi[root], body), root);
        spans := spans + [Edit(units.lo[root], units.hi[root], body)];
        seen := seen + {root};
        owners := owners + [root];
        i := j;
      }
      c := d + 1;
    }
    assert pieces[i..] == [];
    ListedAll(seen, blocks, c);
  }

  lemma {:induction false} GatherNone(text: Text, pieces: seq<Piece>, units: Units, k: Book, blocks: seq<Block>)
    requires Inv(text, pieces, k, blocks) && Keeps(units, k)
    ensures Flatten(blocks) == pieces && Forest(units.parent, k.rt) && k.Sized()
    ensures units.lo == k.lo && units.hi == k.hi && units.ghosts == k.ghosts && |k.rt| == |k.lo| == |k.hi|
    ensures Gathered([], [], {}, k, blocks)
    ensures ListedUpTo({}, blocks, 0) && ListedOnly({}, blocks, 0)
  {
  }

  lemma {:induction false} ListedAll(seen: set<nat>, blocks: seq<Block>, c: nat)
    requires c <= |blocks| && Flatten(blocks[c..]) == [] && ListedUpTo(seen, blocks, c)
    ensures ListedUpTo(seen, blocks, |blocks|)
  {
    RestEmpty(blocks, c);
  }

  lemma {:induction false} FlattenEmpty(blocks: seq<Block>)
    requires Flatten(blocks) == []
    ensures forall x :: 0 <= x < |blocks| ==> blocks[x].parts == []
  {
    if blocks != [] {
      FlattenEmpty(blocks[1..]);
      assert forall x :: 1 <= x < |blocks| ==> blocks[x] == blocks[1..][x - 1];
    }
  }

  lemma {:induction false} RestEmpty(blocks: seq<Block>, c: nat)
    requires c <= |blocks| && Flatten(blocks[c..]) == []
    ensures forall x :: c <= x < |blocks| ==> blocks[x].parts == []
  {
    FlattenEmpty(blocks[c..]);
    assert forall x :: c <= x < |blocks| ==> blocks[x] == blocks[c..][x - c];
  }

  /** An empty mask whose root has not been listed yet gets its span. */
  lemma {:induction false} GhostSpan(text: Text, pieces: seq<Piece>, k: Book, blocks: seq<Block>, seen: set<nat>, g: nat)
    requires Inv(text, pieces, k, blocks) && g in k.ghosts && k.rt[g] !in seen
    requires ListedUpTo(seen, blocks, |blocks|)
    ensures k.rt[g] < |k.rt| && SpanFor(Edit(k.lo[k.rt[g]], k.hi[k.rt[g]], []), k.rt[g], k, blocks)
  {
    var r := k.rt[g];
    if b :| b in blocks && b.root == r {
      var x :| 0 <= x < |blocks| && blocks[x] == b;
      assert b.parts == [];
      assert BlockOk(b, text, k);
      assert Bodies([]) == [];
      assert SpanOf(b) == Edit(k.lo[r], k.hi[r], []);
    } else {
      assert GhostOk(r, blocks, k);
    }
  }

  lemma {:induction false} ListedMore(seen: set<nat>, r: nat, blocks: seq<Block>)
    requires ListedUpTo(seen, blocks, |blocks|)
    ensures ListedUpTo(seen + {r}, blocks, |blocks|)
  {
  }

  /** List the empty mask `g`, unless what it grew into has been listed. */
  method ListGhost(ghost text: Text, ghost pieces: seq<Piece>, units: Units, g: nat, parent0: seq<nat>,
                   spans0: seq<Edit<point>>, listed0: set<nat>, ghost owners0: seq<nat>, ghost k: Book, ghost blocks: seq<Block>)
    returns (parent: seq<nat>, spans: seq<Edit<point>>, listed: set<nat>, ghost owners: seq<nat>)
    requires Inv(text, pieces, k, blocks) && units.lo == k.lo && units.hi == k.hi && g in k.ghosts
    requires Forest(parent0, k.rt)
    requires Gathered(spans0, owners0, listed0, k, blocks) && ListedUpTo(listed0, blocks, |blocks|)
    ensures Forest(parent, k.rt) && g < |k.rt| && k.rt[g] in listed && listed0 <= listed
    ensures Gathered(spans, owners, listed, k, blocks) && ListedUpTo(listed, blocks, |blocks|)
  {
    assert k.Sized() && |parent0| == |k.rt|;
    hide *;
    spans, owners, listed := spans0, owners0, listed0;
    GhostInRange(k, g);
    var root;
    parent, root := Find(parent0, g, k.rt);
    if root !in listed {
      GhostSpan(text, pieces, k, blocks, listed, g);
      GatherMore(spans, owners, listed, k, blocks, Edit(units.lo[root], units.hi[root], []), root);
      ListedMore(listed, root, blocks);
      listed := listed + {root};
      spans := spans + [Edit(units.lo[root], units.hi[root], [])];
      owners := owners + [root];
    }
  }

  lemma {:induction false} GhostInRange(k: Book, g: nat)
    requires k.Sized() && g in k.ghosts
    ensures g < |k.rt| && k.rt[g] < |k.rt| == |k.lo| == |k.hi|
  {
  }

  /** Second pass: the masks that left no character behind. */
  method ListGhosts(ghost text: Text, ghost pieces: seq<Piece>, units: Units, parent0: seq<nat>, spans0: seq<Edit<point>>,
                    seen0: set<nat>, ghost owners0: seq<nat>, ghost k: Book, ghost blocks: seq<Block>)
    returns (spans: seq<Edit<point>>, ghost owners: seq<nat>, ghost seen: set<nat>)
    requires Inv(text, pieces, k, blocks) && Keeps(units, k) && Forest(parent0, k.rt)
    requires Gathered(spans0, owners0, seen0, k, blocks) && ListedUpTo(seen0, blocks, |blocks|)
    ensures Gathered(spans, owners, seen, k, blocks)
    ensures ListedUpTo(seen, blocks, |blocks|)
    ensures forall g :: g in k.ghosts ==> g < |k.rt| && k.rt[g] in seen
  {
    assert units.ghosts == k.ghosts && units.lo == k.lo && units.hi == k.hi;
    assert GhostsListed(units.ghosts, 0, k, seen0);
    hide *;
    spans, owners := spans0, owners0;
    var listed, parent := seen0, parent0;
    for n := 0 to |units.ghosts|
      invariant Forest(parent, k.rt)
      invariant Gathered(spans, owners, listed, k, blocks) && ListedUpTo(listed, blocks, |blocks|)
      invariant GhostsListed(units.ghosts, n, k, listed)
    {
      GhostsListedMore(units.ghosts, n, k, listed);
      parent, spans, listed, owners :=
        ListGhost(text, pieces, units, units.ghosts[n], parent, spans, listed, owners, k, blocks);
    }
    seen := listed;
    GhostsAllListed(units.ghosts, k, seen);
  }

  ghost predicate GhostsListed(ghosts: seq<nat>, n: nat, k: Book, seen: set<nat>) {
    forall m :: 0 <= m < n && m < |ghosts| ==> ghosts[m] < |k.rt| && k.rt[ghosts[m]] in seen
  }

  lemma {:induction false} GhostsListedMore(ghosts: seq<nat>, n: nat, k: Book, seen: set<nat>)
    requires GhostsListed(ghosts, n, k, seen) && n < |ghosts|
    ensures forall more :: seen <= more && ghosts[n] < |k.rt| && k.rt[ghosts[n]] in more ==>
              GhostsListed(ghosts, n + 1, k, more)
  {
  }

  lemma {:induction false} GhostsAllListed(ghosts: seq<nat>, k: Book, seen: set<nat>)
    requires GhostsListed(ghosts, |ghosts|, k, seen)
    ensures forall g :: g in ghosts ==> g < |k.rt| && k.rt[g] in seen
  {
  }

  // ---------------------------------------------------------------- sorting and merging

  /** The key of the sort: start, then end. */
  predicate Before(a: Edit<point>, b: Edit<point>) {
    a.start < b.start || (a.start == b.start && a.end <= b.end)
  }

  ghost predicate Sorted(s: seq<Edit<point>>) {
    forall i, j :: 0 <= i < j < |s| ==> Before(s[i], s[j])
  }

  /** Insert into a sorted list behind everything that is not greater. */
  method Insert(r0: seq<Edit<point>>, x: Edit<point>) returns (r: seq<Edit<point>>)
    requires Sorted(r0)
    ensures Sorted(r) && multiset(r) == multiset(r0) + multiset{x}
  {
    hide Sorted;
    var at: nat := |r0|;
    while at > 0 && !Before(r0[at - 1], x)
      invariant at <= |r0| && forall i :: at <= i < |r0| ==> !Before(r0[i], x)
    {
      at := at - 1;
    }
    InsertSorted(r0, at, x);
    InsertKeeps(r0, at, x);
    r := r0[..at] + [x] + r0[at..];
  }

  lemma {:induction false} InsertKeeps<T>(r0: seq<T>, at: nat, x: T)
    requires at <= |r0|
    ensures multiset(r0[..at] + [x] + r0[at..]) == multiset(r0) + multiset{x}
  {
    assert r0 == r0[..at] + r0[at..];
    assert multiset(r0) == multiset(r0[..at]) + multiset(r0[at..]);
  }

  lemma {:induction false} InsertSorted(r0: seq<Edit<point>>, at: nat, x: Edit<point>)
    requires Sorted(r0) && at <= |r0|
    requires at > 0 ==> Before(r0[at - 1], x)
    requires forall i :: at <= i < |r0| ==> !Before(r0[i], x)
    ensures Sorted(r0[..at] + [x] + r0[at..])
  {
    var r := r0[..at] + [x] + r0[at..];
    forall i, j | 0 <= i < j < |r| ensures Before(r[i], r[j]) {
      if i < at && j == at { assert i == at - 1 || Before(r0[i], r0[at - 1]); }
      else if j < at { assert Before(r0[i], r0[j]); }
      else if i > at { assert Before(r0[i - 1], r0[j - 1]); }
      else if i < at { assert Before(r0[i], r0[j - 1]); }
    }
  }

  method SortSpans(s: seq<Edit<point>>) returns (r: seq<Edit<point>>)
    ensures Sorted(r) && multiset(r) == multiset(s)
  {
    r := [];
    for n := 0 to |s|
      invariant Sorted(r) && multiset(r) == multiset(s[..n])
    {
      hide Sorted;
      assert s[..n + 1] == s[..n] + [s[n]];
      r := Insert(r, s[n]);
    }
    assert s[..|s|] == s;
  }

  /** Swallowed by span `b`: nothing to show, strictly inside. */
  ghost predicate Swallowed(s: Edit<point>, b: Edit<point>) {
    s.mask == [] && b.start < s.start < s.end < b.end
  }

  /** What sorting and merging rely on: each span of `goal` occurs once, everything else is swallowed by one. */
  ghost predicate Mergeable(s: seq<Edit<point>>, goal: seq<Edit<point>>) {
    && (forall x :: x in s ==> x in goal || exists b :: b in goal && Swallowed(x, b))
    && (forall b :: b in goal ==> multiset(s)[b] == 1)
  }

  lemma {:induction false} CountOne<T>(s: seq<T>, n: nat)
    requires n < |s| && forall i :: 0 <= i < |s| && i != n ==> s[i] != s[n]
    ensures multiset(s)[s[n]] == 1
  {
    assert s == s[..n] + [s[n]] + s[n + 1..];
    assert s[n] !in s[..n] && s[n] !in s[n + 1..];
    assert multiset(s[..n])[s[n]] == 0 && multiset(s[n + 1..])[s[n]] == 0;
  }

  /** Distinct roots begin at distinct places. */
  lemma {:induction false} StartsApart(text: Text, pieces: seq<Piece>, k: Book, blocks: seq<Block>, b: Block, s: Edit<point>, r: nat)
    requires Inv(text, pieces, k, blocks) && b in blocks && SpanFor(s, r, k, blocks)
    requires s.start == b.lo
    ensures r == b.root
  {
    if c :| c in blocks && c.root == r && s == SpanOf(c) {
      assert BlockOk(b, text, k) && BlockOk(c, text, k);
      TilesUnique(blocks, 0, |text|, b, c);
    } else {
      var c :| c in blocks && Inside(c, k.lo[r], k.hi[r]);
      assert BlockOk(b, text, k) && BlockOk(c, text, k);
      TilesUnique(blocks, 0, |text|, b, c);
      assert false;
    }
  }

  lemma {:induction false} GatheredOnce(text: Text, pieces: seq<Piece>, k: Book, blocks: seq<Block>, spans: seq<Edit<point>>,
                     owners: seq<nat>, seen: set<nat>, b: Block)
    requires Inv(text, pieces, k, blocks) && Gathered(spans, owners, seen, k, blocks)
    requires b in blocks && b.root >= 0 && b.root in seen
    ensures multiset(spans)[SpanOf(b)] == 1
  {
    var n :| 0 <= n < |owners| && owners[n] == b.root;
    assert SpanFor(spans[n], b.root, k, blocks);
    var c :| c in blocks && c.root == b.root && spans[n] == SpanOf(c);
    assert BlockOk(b, text, k) && BlockOk(c, text, k);
    TilesUnique(blocks, 0, |text|, b, c);
    forall i | 0 <= i < |spans| && i != n ensures spans[i] != spans[n] {
      if spans[i] == spans[n] {
        assert SpanFor(spans[i], owners[i], k, blocks);
        StartsApart(text, pieces, k, blocks, b, spans[i], owners[i]);
      }
    }
    CountOne(spans, n);
  }

  lemma {:induction false} GatheredMergeable(text: Text, pieces: seq<Piece>, k: Book, blocks: seq<Block>, spans: seq<Edit<point>>,
                          owners: seq<nat>, seen: set<nat>)
    requires Inv(text, pieces, k, blocks) && Gathered(spans, owners, seen, k, blocks)
    requires ListedUpTo(seen, blocks, |blocks|)
    requires forall g :: g in k.ghosts ==> g < |k.rt| && k.rt[g] in seen
    ensures Mergeable(spans, Hidden(blocks))
  {
    HiddenIs(blocks);
    hide Inv, Hidden, SpanOf, Bodies;
    forall x | x in spans ensures x in Hidden(blocks) || exists b :: b in Hidden(blocks) && Swallowed(x, b) {
      var i :| 0 <= i < |spans| && spans[i] == x;
      SpanForHidden(x, owners[i], k, blocks);
    }
    forall s | s in Hidden(blocks) ensures multiset(spans)[s] == 1 {
      var b :| b in blocks && b.root >= 0 && s == SpanOf(b);
      var x :| 0 <= x < |blocks| && blocks[x] == b;
      RootSeen(text, pieces, k, blocks, seen, b);
      GatheredOnce(text, pieces, k, blocks, spans, owners, seen, b);
    }
  }

  lemma {:induction false} SpanForHidden(x: Edit<point>, r: nat, k: Book, blocks: seq<Block>)
    requires k.Sized() && SpanFor(x, r, k, blocks)
    ensures x in Hidden(blocks) || exists b :: b in Hidden(blocks) && Swallowed(x, b)
  {
    HiddenIs(blocks);
    if b :| b in blocks && b.root == r && x == SpanOf(b) {
    } else {
      var b :| b in blocks && Inside(b, k.lo[r], k.hi[r]);
      assert Swallowed(x, SpanOf(b)) && SpanOf(b) in Hidden(blocks);
    }
  }

  lemma {:induction false} RootSeen(text: Text, pieces: seq<Piece>, k: Book, blocks: seq<Block>, seen: set<nat>, b: Block)
    requires Inv(text, pieces, k, blocks) && ListedUpTo(seen, blocks, |blocks|)
    requires forall g :: g in k.ghosts ==> g < |k.rt| && k.rt[g] in seen
    requires b in blocks && b.root >= 0
    ensures b.root in seen
  {
    var x :| 0 <= x < |blocks| && blocks[x] == b;
  }

  /** The spans still to come, when the first `j` spans of the goal are done. */
  ghost predicate Remaining(s: seq<Edit<point>>, goal: seq<Edit<point>>, j: nat) {
    && (forall x :: x in s ==>
          (exists m :: j <= m < |goal| && x == goal[m])
          || (exists m :: 0 <= m < |goal| && m >= j - 1 && Swallowed(x, goal[m])))
    && (forall m :: j <= m < |goal| ==> multiset(s)[goal[m]] == 1)
  }

  lemma {:induction false} RemainingAtStart(s: seq<Edit<point>>, goal: seq<Edit<point>>)
    requires Mergeable(s, goal)
    ensures Remaining(s, goal, 0)
  {
    forall x | x in s
      ensures (exists m :: 0 <= m < |goal| && x == goal[m]) || (exists m :: 0 <= m < |goal| && Swallowed(x, goal[m]))
    {
      if x !in goal {
        var b :| b in goal && Swallowed(x, b);
        var m :| 0 <= m < |goal| && goal[m] == b;
      }
    }
  }

  /** The next span either overlaps the last one done and is swallowed by it, or is the next of the goal. */
  lemma {:induction false} NextSpan(s: seq<Edit<point>>, goal: seq<Edit<point>>, j: nat, n: nat)
    requires s != [] && Sorted(s) && DisjointSpans(goal, n) && Remaining(s, goal, j) && j <= |goal|
    ensures j > 0 && s[0].start < goal[j - 1].end ==> Swallowed(s[0], goal[j - 1])
    ensures !(j > 0 && s[0].start < goal[j - 1].end) ==> j < |goal| && s[0] == goal[j]
  {
    var x := s[0];
    assert x in s;
    if j < |goal| {
      assert multiset(s)[goal[j]] == 1 && goal[j] in s;
      var i :| 0 <= i < |s| && s[i] == goal[j];
      assert x.start <= goal[j].start;
    }
    assert forall m :: j < m < |goal| ==> goal[j].start < goal[j].end <= goal[m].start;
    assert j > 0 ==> forall m :: j <= m < |goal| ==> goal[j - 1].end <= goal[m].start;
  }

  /** A swallowed span leaves everything else as it was. */
  lemma {:induction false} RemainingSame(s: seq<Edit<point>>, goal: seq<Edit<point>>, j: nat, n: nat)
    requires s != [] && DisjointSpans(goal, n) && Remaining(s, goal, j)
    requires 0 < j <= |goal| && s[0].start < goal[j - 1].end
    ensures Remaining(s[1..], goal, j)
  {
    assert s == [s[0]] + s[1..];
    assert multiset(s) == multiset{s[0]} + multiset(s[1..]);
    assert forall m :: j <= m < |goal| ==> goal[j - 1].end <= goal[m].start;
    assert forall m :: j <= m < |goal| ==> s[0] != goal[m] && multiset(s[1..])[goal[m]] == multiset(s)[goal[m]];
    assert forall x :: x in s[1..] ==> x in s;
  }

  /** A span of the goal, once passed, does not come again. */
  lemma {:induction false} RemainingStep(s: seq<Edit<point>>, goal: seq<Edit<point>>, j: nat, n: nat)
    requires s != [] && Sorted(s) && DisjointSpans(goal, n) && Remaining(s, goal, j)
    requires j < |goal| && s[0] == goal[j]
    ensures Remaining(s[1..], goal, j + 1)
  {
    assert forall m :: j < m < |goal| ==> goal[j].start < goal[j].end <= goal[m].start;
    OneLess(s);
    assert forall m :: j < m < |goal| ==> s[0] != goal[m];
    assert multiset(s)[goal[j]] == 1;
    assert goal[j] !in s[1..];
    assert forall i :: 0 <= i < |s[1..]| ==> s[1..][i] == s[i + 1] && Before(s[0], s[i + 1]);
    assert j > 0 ==> goal[j - 1].end <= s[0].start;
    forall x | x in s[1..]
      ensures (exists m :: j + 1 <= m < |goal| && x == goal[m])
              || (exists m :: 0 <= m < |goal| && m >= j && Swallowed(x, goal[m]))
    {
      RemainingElement(s, goal, j, x);
    }
  }

  /** Without its first element a list has one copy of it less, and as many of anything else. */
  lemma {:induction false} OneLess(s: seq<Edit<point>>)
    requires s != []
    ensures multiset(s)[s[0]] == 1 ==> s[0] !in s[1..]
    ensures forall x :: x != s[0] ==> multiset(s[1..])[x] == multiset(s)[x]
  {
    assert s == [s[0]] + s[1..];
    assert multiset(s) == multiset{s[0]} + multiset(s[1..]);
  }

  lemma {:induction false} RemainingElement(s: seq<Edit<point>>, goal: seq<Edit<point>>, j: nat, x: Edit<point>)
    requires Remaining(s, goal, j) && x in s && j < |goal| && x != goal[j]
    requires j > 0 ==> !Swallowed(x, goal[j - 1])
    ensures (exists m :: j + 1 <= m < |goal| && x == goal[m])
            || (exists m :: 0 <= m < |goal| && m >= j && Swallowed(x, goal[m]))
  {
    if m :| j <= m < |goal| && x == goal[m] {
      assert m >= j + 1;
    } else {
      var m :| 0 <= m < |goal| && m >= j - 1 && Swallowed(x, goal[m]);
      assert m >= j;
    }
  }

  lemma {:induction false} RemainingNone(s: seq<Edit<point>>, goal: seq<Edit<point>>, j: nat)
    requires Remaining(s, goal, j) && s == [] && j <= |goal|
    ensures j == |goal|
  {
    assert j < |goal| ==> multiset(s)[goal[j]] == 1;
  }

  /** Merge overlapping spans (an empty mask that ended up inside a later match was never linked to it). */
  method Merge(spans: seq<Edit<point>>, ghost goal: seq<Edit<point>>, ghost n: nat) returns (merged: seq<Edit<point>>)
    requires Sorted(spans) && DisjointSpans(goal, n) && Mergeable(spans, goal)
    ensures merged == goal
  {
    hide Sorted, DisjointSpans, Mergeable, Remaining;
    merged := [];
    ghost var j := 0;
    RemainingAtStart(spans, goal);
    assert spans[0..] == spans;
    for k := 0 to |spans|
      invariant j <= |goal| && merged == goal[..j]
      invariant Sorted(spans[k..]) && Remaining(spans[k..], goal, j)
    {
      hide *;
      var span := spans[k];
      NextSpan(spans[k..], goal, j, n);
      SortedTail(spans[k..]);
      assert spans[k..][1..] == spans[k + 1..] && spans[k..][0] == span;
      if merged != [] && span.start < merged[|merged| - 1].end {
        SwallowedMerge(span, goal[j - 1]);
        RemainingSame(spans[k..], goal, j, n);
        var prev := merged[|merged| - 1];
        var end := if prev.end < span.end then span.end else prev.end;
        merged := merged[|merged| - 1 := Edit(prev.start, end, prev.mask + span.mask)];
      } else {
        RemainingStep(spans[k..], goal, j, n);
        assert goal[..j + 1] == goal[..j] + [goal[j]];
        merged := merged + [span];
        j := j + 1;
      }
    }
    assert spans[|spans|..] == [];
    RemainingNone(spans[|spans|..], goal, j);
  }

  lemma {:induction false} SortedTail(s: seq<Edit<point>>)
    requires s != [] && Sorted(s)
    ensures Sorted(s[1..])
  {
  }

  lemma {:induction false} SwallowedMerge(s: Edit<point>, b: Edit<point>)
    requires Swallowed(s, b)
    ensures Edit(b.start, if b.end < s.end then s.end else b.end, b.mask + s.mask) == b
  {
  }

  // ---------------------------------------------------------------- the whole

  lemma {:induction false} BlocksAtStart(text: Text) returns (blocks: seq<Block>)
    requires text != []
    ensures Inv(text, [Piece(-1, 0, text)], Book([], [], [], []), blocks)
  {
    var b := Block(-1, 0, |text|, [Piece(-1, 0, text)]);
    blocks := [b];
    assert text[0..|text|] == text;
    FlattenOne(b);
    assert blocks[1..] == [];
  }

  /** The next rule, on the text the earlier rules left. */
  method NextRule(ghost text: Text, rules: seq<Rule>, n: nat, pieces0: seq<Piece>, current0: Text, units0: Units,
                  ghost k0: Book, ghost blocks0: seq<Block>)
    returns (pieces: seq<Piece>, current: Text, units: Units, ghost k: Book, ghost blocks: seq<Block>)
    requires AllValid(rules) && n < |rules|
    requires Inv(text, pieces0, k0, blocks0) && Keeps(units0, k0)
    requires Cells(pieces0) == Trace(text, rules[..n]) && current0 == Chars(Cells(pieces0))
    ensures Inv(text, pieces, k, blocks) && Keeps(units, k)
    ensures Cells(pieces) == Trace(text, rules[..n + 1]) && current == Chars(Cells(pieces))
    ensures |pieces| <= |pieces0| + 2 * |NonEmpty(rules[n].find(current0))|
  {
    hide Inv, Keeps;
    pieces, current, units, k, blocks := pieces0, current0, units0, k0, blocks0;
    assert rules[..n + 1][..n] == rules[..n] && rules[..n + 1][n] == rules[n];
    assert rules[n].Valid();
    var matches := NonEmpty(rules[n].find(current));
    if matches == [] {
      assert CellEdits(RuleEdits(rules[n], current)) == [];
      assert Cells(pieces)[0..] == Cells(pieces);
      return;
    }
    pieces, units, k, blocks := ApplyRule(text, rules[n], current, pieces, units, k, blocks);
    BodiesAre(pieces);
    current := Bodies(pieces);
  }

  /** Turn pieces and empty masks into the spans of the blocks. */
  method Collect(ghost text: Text, pieces: seq<Piece>, units: Units, ghost k: Book, ghost blocks: seq<Block>)
    returns (spans: seq<Edit<point>>)
    requires Inv(text, pieces, k, blocks) && Keeps(units, k)
    ensures spans == Hidden(blocks)
  {
    if units.parent == [] {
      NothingHidden(text, pieces, units, k, blocks);
      return [];
    }
    hide *;
    var listed, seen, parent;
    ghost var owners, all;
    listed, seen, parent, owners := ListRuns(text, pieces, units, k, blocks);
    listed, owners, all := ListGhosts(text, pieces, units, parent, listed, seen, owners, k, blocks);
    GatheredMergeable(text, pieces, k, blocks, listed, owners, all);
    var sorted := SortSpans(listed);
    SortedMergeable(listed, sorted, Hidden(blocks));
    InvHiddenShape(text, pieces, k, blocks);
    spans := Merge(sorted, Hidden(blocks), |text|);
  }

  lemma {:induction false} InvHiddenShape(text: Text, pieces: seq<Piece>, k: Book, blocks: seq<Block>)
    requires Inv(text, pieces, k, blocks)
    ensures DisjointSpans(Hidden(blocks), |text|) && Ordered(Hidden(blocks), 0, |text|)
  {
    HiddenShape(blocks, 0, |text|);
  }

  lemma {:induction false} NothingHidden(text: Text, pieces: seq<Piece>, units: Units, k: Book, blocks: seq<Block>)
    requires Inv(text, pieces, k, blocks) && Keeps(units, k) && units.parent == []
    ensures Hidden(blocks) == []
  {
    assert forall b :: b in blocks ==> BlockOk(b, text, k) && b.root < 0;
    HiddenNone(blocks);
  }

  lemma {:induction false} HiddenNone(blocks: seq<Block>)
    requires forall b :: b in blocks ==> b.root < 0
    ensures Hidden(blocks) == []
  {
    if blocks != [] { HiddenNone(blocks[1..]); }
  }

  lemma {:induction false} SortedMergeable(s: seq<Edit<point>>, r: seq<Edit<point>>, goal: seq<Edit<point>>)
    requires multiset(r) == multiset(s) && Mergeable(s, goal)
    ensures Mergeable(r, goal)
  {
    forall x | x in r ensures x in s { assert x in multiset(r); }
  }

  /** What the spans of the blocks say of the text. */
  lemma {:induction false} HiddenSays(text: Text, pieces: seq<Piece>, k: Book, blocks: seq<Block>)
    requires Inv(text, pieces, k, blocks)
    ensures DisjointSpans(Hidden(blocks), |text|) && Ordered(Hidden(blocks), 0, |text|)
    ensures Ordered(CellEdits(Hidden(blocks)), 0, |text|)
    ensures Replace(Origins(text), CellEdits(Hidden(blocks)), 0) == Cells(pieces)
    ensures Replace(text, Hidden(blocks), 0) == Chars(Cells(pieces))
    ensures forall i :: 0 <= i < |text| ==> (Covered(Hidden(blocks), i) <==> !Survives(Cells(pieces), i))
  {
    hide BlockOk, GhostOk, Flatten, Hidden, Cells;
    InvHiddenShape(text, pieces, k, blocks);
    SpliceIsCurrent(text, blocks, 0, k);
    CharsOfReplace(Origins(text), Hidden(blocks), 0);
    forall i | 0 <= i < |text| ensures Covered(Hidden(blocks), i) <==> !Survives(Cells(pieces), i) {
      OutsideIsSurvival(text, blocks, 0, k, i);
    }
  }

  lemma {:induction false} NoRules(text: Text, rules: seq<Rule>)
    requires AllValid(rules) && (text == [] || rules == [])
    ensures Replace(text, [], 0) == Masked(text, rules) && Replace(Origins(text), CellEdits([]), 0) == Trace(text, rules)
    ensures forall i :: 0 <= i < |text| ==> Survives(Trace(text, rules), i)
  {
    assert Origins(text)[0..] == Origins(text);
    if text == [] {
      EmptyText(rules, true);
    } else {
      assert text[0..] == text;
      forall i | 0 <= i < |text| ensures Survives(Trace(text, rules), i) {
        assert Trace(text, rules)[i].origin == Some(i);
      }
    }
  }

  /** The spans of a text under these rules: in order, non-empty and disjoint; splicing them into the text gives exactly
      what the plain rewriting gives, every character with its origin, so that each mask stands where the rules put it;
      and they cover exactly the characters that do not survive. */
  ghost predicate SpansFor(text: Text, rules: seq<Rule>, spans: seq<Edit<point>>)
    requires AllValid(rules)
  {
    && DisjointSpans(spans, |text|) && Ordered(spans, 0, |text|)
    && Replace(text, spans, 0) == Masked(text, rules)
    && Ordered(CellEdits(spans), 0, |text|) && Replace(Origins(text), CellEdits(spans), 0) == Trace(text, rules)
    && forall i :: 0 <= i < |text| ==> (Covered(spans, i) <==> !Survives(Trace(text, rules), i))
  }

  /** `find_masked_spans`. */
  method FindMaskedSpans(text: Text, rules: seq<Rule>) returns (spans: seq<Edit<point>>)
    requires AllValid(rules)
    ensures SpansFor(text, rules, spans)
  {
    if text == [] || rules == [] {
      NoRules(text, rules);
      return [];
    }
    var pieces, current, units := [Piece(-1, 0, text)], text, Units([], [], [], []);
    ghost var k := Book([], [], [], []);
    ghost var blocks := BlocksAtStart(text);
    TraceAtStart(text);
    assert rules[..0] == [];
    hide Inv, Cells, Chars;
    for n := 0 to |rules|
      invariant Inv(text, pieces, k, blocks) && Keeps(units, k)
      invariant Cells(pieces) == Trace(text, rules[..n]) && current == Chars(Cells(pieces))
      invariant |pieces| <= 1 + 2 * Detected(text, rules[..n], true)
    {
      hide Keeps, Trace, Detected;
      DetectedStep(text, rules, n);
      pieces, current, units, k, blocks := NextRule(text, rules, n, pieces, current, units, k, blocks);
    }
    assert rules[..|rules|] == rules;
    spans := Collect(text, pieces, units, k, blocks);
    HiddenSays(text, pieces, k, blocks);
  }

  lemma {:induction false} TraceAtStart(text: Text)
    ensures Cells([Piece(-1, 0, text)]) == Trace(text, []) && Chars(Trace(text, [])) == text
  {
    var p := Piece(-1, 0, text);
    assert [p][1..] == [];
    assert Cells([p]) == PieceCells(p) + [];
    assert Trace(text, []) == PieceCells(p);
  }

  /** The matches of one more rule, counted on the text the rules before it leave. */
  lemma {:induction false} DetectedStep(text: Text, rules: seq<Rule>, n: nat)
    requires AllValid(rules) && n < |rules|
    ensures Detected(text, rules[..n + 1], true)
         == Detected(text, rules[..n], true) + |NonEmpty(rules[n].find(Chars(Trace(text, rules[..n]))))|
  {
    assert rules[..n + 1][..n] == rules[..n] && rules[..n + 1][n] == rules[n];
    assert Chars(Trace(text, rules[..n])) == Masked(text, rules[..n]);
  }

  lemma {:induction false} SpansSay(text: Text, rules: seq<Rule>, spans: seq<Edit<point>>)
    requires AllValid(rules) && SpansFor(text, rules, spans)
    ensures DisjointSpans(spans, |text|) && Ordered(spans, 0, |text|) && Replace(text, spans, 0) == Masked(text, rules)
  {
  }

  /** All characters of a stretch survive the rules. */
  ghost predicate AllSurvive(text: Text, rules: seq<Rule>, start: nat, end: nat)
    requires AllValid(rules)
  {
    forall i :: start <= i < end ==> Survives(Trace(text, rules), i)
  }

  /** No span shares a character with a stretch whose characters all survive; and a text that survives whole has no
      spans and is left as it is. */
  lemma {:induction false} SurvivingIsApart(text: Text, rules: seq<Rule>, spans: seq<Edit<point>>, start: nat, end: nat)
    requires AllValid(rules) && SpansFor(text, rules, spans) && start <= end <= |text| && AllSurvive(text, rules, start, end)
    ensures forall k :: 0 <= k < |spans| && start < end ==> spans[k].end <= start || end <= spans[k].start
    ensures start == 0 && end == |text| ==> spans == [] && Masked(text, rules) == text
  {
    hide SpansFor, Survives, Trace, Masked;
    SpansSay(text, rules, spans);
    forall k | 0 <= k < |spans| && start < end
      ensures spans[k].end <= start || end <= spans[k].start
    {
      if start < spans[k].end && spans[k].start < end { SpanHides(text, rules, spans, k, Max(start, spans[k].start)); }
    }
    SomethingHidden(text, rules, spans);
    if start == 0 && end == |text| {
      ReplaceNone(text, 0);
      assert text[0..] == text;
    }
  }

  lemma {:induction false} SomethingHidden(text: Text, rules: seq<Rule>, spans: seq<Edit<point>>)
    requires AllValid(rules) && SpansFor(text, rules, spans)
    ensures spans != [] ==> !AllSurvive(text, rules, 0, |text|)
  {
    if spans != [] { SpanHides(text, rules, spans, 0, spans[0].start); }
  }

  lemma {:induction false} SpanHides(text: Text, rules: seq<Rule>, spans: seq<Edit<point>>, k: nat, i: nat)
    requires AllValid(rules) && SpansFor(text, rules, spans) && k < |spans| && spans[k].start <= i < spans[k].end
    ensures i < |text| && !Survives(Trace(text, rules), i)
  {
    assert spans[k] in spans;
    assert Covered(spans, i);
  }
}
