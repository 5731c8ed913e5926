/** `find_masked_spans` (rules.py): which stretches of the original text are hidden, and by what.

    The method keeps the current text as pieces (untouched stretches of the original, and masks), a work queue,
    and a union-find forest that remembers which masks grew together. The proof keeps beside them a tiling of the
    original text by blocks. */
module Spans {
  import opened Base
  import opened Rules

  // ---------------------------------------------------------------- tracing characters

  /** A character of the current text and the original position it was copied from (None inside a mask). */
  datatype Cell = Cell(ch: point, origin: Option<nat>)

  ghost function Chars(cells: seq<Cell>): Text {
    seq(|cells|, i requires 0 <= i < |cells| => cells[i].ch)
  }

  ghost function MaskCells(mask: Text): seq<Cell> {
    seq(|mask|, i requires 0 <= i < |mask| => Cell(mask[i], None))
  }

  ghost function CellEdits(edits: seq<Edit<point>>): (cellEdits: seq<Edit<Cell>>)
    ensures |cellEdits| == |edits|
    ensures forall k :: 0 <= k < |edits| ==>
              cellEdits[k] == Edit(edits[k].start, edits[k].end, MaskCells(edits[k].mask))
  {
    seq(|edits|, k requires 0 <= k < |edits| => Edit(edits[k].start, edits[k].end, MaskCells(edits[k].mask)))
  }

  lemma {:induction false} CellEditsOrdered(edits: seq<Edit<point>>, from: nat, upto: nat)
    requires Ordered(edits, from, upto)
    ensures Ordered(CellEdits(edits), from, upto)
  {
    if edits != [] {
      CellEditsOrdered(edits[1..], edits[0].end, upto);
      assert CellEdits(edits)[1..] == CellEdits(edits[1..]);
    }
  }

  /** The text itself, traced. */
  ghost function Origins(text: Text): (cells: seq<Cell>)
    ensures |cells| == |text| && Chars(cells) == text
  {
    var cells := seq(|text|, i requires 0 <= i < |text| => Cell(text[i], Some(i)));
    assert Chars(cells) == text;
    cells
  }

  /** The text with every character tagged by where it came from, after the rules: a reference for the spans. */
  ghost function Trace(text: Text, rules: seq<Rule>): (cells: seq<Cell>)
    requires AllValid(rules)
    ensures Chars(cells) == Masked(text, rules)
  {
    if rules == [] then Origins(text)
    else
      var before := Trace(text, rules[..|rules| - 1]);
      var rule := rules[|rules| - 1];
      TraceStep(before, rule);
      StepIsRuleEdits(Chars(before), rule);
      Replace(before, CellEdits(RuleEdits(rule, Chars(before))), 0)
  }

  lemma {:induction false} TraceStep(cells: seq<Cell>, rule: Rule)
    requires rule.Valid()
    ensures Ordered(CellEdits(RuleEdits(rule, Chars(cells))), 0, |cells|)
    ensures Chars(Replace(cells, CellEdits(RuleEdits(rule, Chars(cells))), 0))
         == Replace(Chars(cells), RuleEdits(rule, Chars(cells)), 0)
  {
    CellEditsOrdered(RuleEdits(rule, Chars(cells)), 0, |cells|);
    CharsOfReplace(cells, RuleEdits(rule, Chars(cells)), 0);
  }

  lemma {:induction false} CharsOfReplace(cells: seq<Cell>, edits: seq<Edit<point>>, from: nat)
    requires Ordered(edits, from, |cells|) && Ordered(CellEdits(edits), from, |cells|)
    ensures Chars(Replace(cells, CellEdits(edits), from)) == Replace(Chars(cells), edits, from)
  {
    OrderedBounds(edits, from, |cells|);
    if edits == [] {
      assert Chars(cells)[from..] == Chars(cells[from..]);
    } else {
      var ce := CellEdits(edits);
      assert ce[1..] == CellEdits(edits[1..]);
      CharsOfReplace(cells, edits[1..], edits[0].end);
      CharsConcat(cells[from..edits[0].start], ce[0].mask);
      CharsConcat(cells[from..edits[0].start] + ce[0].mask, Replace(cells, ce[1..], edits[0].end));
      assert Chars(cells[from..edits[0].start]) == Chars(cells)[from..edits[0].start];
      assert Chars(ce[0].mask) == edits[0].mask;
    }
  }

  lemma {:induction false} CharsConcat(a: seq<Cell>, b: seq<Cell>)
    ensures Chars(a + b) == Chars(a) + Chars(b)
  {
  }

  /** The original character at `i` is still to be seen in the masked text. */
  ghost predicate Survives(cells: seq<Cell>, i: nat) {
    exists k :: 0 <= k < |cells| && cells[k].origin == Some(i)
  }

  // ---------------------------------------------------------------- pieces

  /** `(unit, start, body)`: unit -1 is an untouched stretch of the original that begins at `start`. */
  datatype Piece = Piece(unit: int, start: nat, body: Text)

  /** The part `a..b` of a piece. */
  function Cut(piece: Piece, a: nat, b: nat): Piece
    requires a <= b <= |piece.body|
  {
    Piece(piece.unit, if piece.unit < 0 then piece.start + a else piece.start, piece.body[a..b])
  }

  ghost function PieceCells(piece: Piece): (cells: seq<Cell>)
    ensures |cells| == |piece.body|
  {
    if piece.unit < 0 then
      seq(|piece.body|, i requires 0 <= i < |piece.body| => Cell(piece.body[i], Some(piece.start + i)))
    else MaskCells(piece.body)
  }

  ghost function Cells(pieces: seq<Piece>): seq<Cell> {
    if pieces == [] then [] else PieceCells(pieces[0]) + Cells(pieces[1..])
  }

  lemma {:induction false} CellsConcat(a: seq<Piece>, b: seq<Piece>)
    ensures Cells(a + b) == Cells(a) + Cells(b)
  {
    hide PieceCells;
    if a == [] {
      assert a + b == b;
    } else {
      CellsConcat(a[1..], b);
      assert (a + b)[1..] == a[1..] + b && (a + b)[0] == a[0];
      Assoc(PieceCells(a[0]), Cells(a[1..]), Cells(b));
    }
  }

  lemma {:induction false} CellsOfCut(piece: Piece, a: nat)
    requires a <= |piece.body|
    ensures Cells([Cut(piece, 0, a), Cut(piece, a, |piece.body|)]) == PieceCells(piece)
    ensures PieceCells(Cut(piece, 0, a)) == PieceCells(piece)[..a]
    ensures PieceCells(Cut(piece, a, |piece.body|)) == PieceCells(piece)[a..]
  {
    var left, right := Cut(piece, 0, a), Cut(piece, a, |piece.body|);
    assert Cells([left, right]) == PieceCells(left) + PieceCells(right) by {
      assert [left, right][1..] == [right];
      assert Cells([right]) == PieceCells(right) + [];
    }
    assert PieceCells(left) == PieceCells(piece)[..a];
    assert PieceCells(right) == PieceCells(piece)[a..];
  }

  // ---------------------------------------------------------------- blocks: the tiling of the original

  /** A stretch `lo..hi` of the original. Root -1: untouched, one piece. Otherwise hidden, shown as `parts`. */
  datatype Block = Block(root: int, lo: nat, hi: nat, parts: seq<Piece>)

  ghost function Flatten(blocks: seq<Block>): seq<Piece> {
    if blocks == [] then [] else blocks[0].parts + Flatten(blocks[1..])
  }

  lemma {:induction false} FlattenConcat(a: seq<Block>, b: seq<Block>)
    ensures Flatten(a + b) == Flatten(a) + Flatten(b)
  {
    if a == [] {
      assert a + b == b;
    } else {
      FlattenConcat(a[1..], b);
      assert (a + b)[1..] == a[1..] + b && (a + b)[0] == a[0];
      Assoc(a[0].parts, Flatten(a[1..]), Flatten(b));
    }
  }

  lemma {:induction false} FlattenMember(blocks: seq<Block>, p: Piece) returns (b: Block)
    requires p in Flatten(blocks)
    ensures b in blocks && p in b.parts
  {
    if p in blocks[0].parts {
      b := blocks[0];
    } else {
      b := FlattenMember(blocks[1..], p);
    }
  }

  /** Which block holds the piece with index `k`, and at which place in it. */
  lemma {:induction false} Locate(blocks: seq<Block>, k: nat) returns (i: nat, u: nat)
    requires k < |Flatten(blocks)|
    ensures i < |blocks| && u < |blocks[i].parts|
    ensures k == |Flatten(blocks[..i])| + u
    ensures Flatten(blocks) == Flatten(blocks[..i]) + blocks[i].parts + Flatten(blocks[i + 1..])
  {
    if k < |blocks[0].parts| {
      i, u := 0, k;
      assert blocks[..0] == [];
    } else {
      i, u := Locate(blocks[1..], k - |blocks[0].parts|);
      i := i + 1;
      assert blocks[..i][1..] == blocks[1..][..i - 1];
      assert blocks[1..][i..] == blocks[i + 1..];
      assert Flatten(blocks[..i]) == blocks[0].parts + Flatten(blocks[1..][..i - 1]);
      assert Flatten(blocks) == blocks[0].parts + (Flatten(blocks[1..][..i - 1]) + blocks[i].parts + Flatten(blocks[i + 1..]));
    }
  }

  /** The blocks lie side by side from `from` to `upto`. */
  ghost predicate Tiles(blocks: seq<Block>, from: nat, upto: nat) {
    if blocks == [] then from == upto
    else blocks[0].lo == from && from < blocks[0].hi && Tiles(blocks[1..], blocks[0].hi, upto)
  }

  lemma {:induction false} TilesBounds(blocks: seq<Block>, from: nat, upto: nat)
    requires Tiles(blocks, from, upto)
    ensures from <= upto
    ensures forall b :: b in blocks ==> from <= b.lo < b.hi <= upto
    ensures blocks != [] ==> blocks[|blocks| - 1].hi == upto
  {
    if blocks != [] {
      TilesBounds(blocks[1..], blocks[0].hi, upto);
      assert forall b :: b in blocks ==> b == blocks[0] || b in blocks[1..];
    }
  }

  lemma {:induction false} TilesJoin(a: seq<Block>, b: seq<Block>, from: nat, mid: nat, upto: nat)
    requires Tiles(a, from, mid) && Tiles(b, mid, upto)
    ensures Tiles(a + b, from, upto)
  {
    if a == [] {
      assert a + b == b;
    } else {
      TilesJoin(a[1..], b, a[0].hi, mid, upto);
      assert (a + b)[1..] == a[1..] + b;
    }
  }

  lemma {:induction false} TilesSplit(a: seq<Block>, b: seq<Block>, from: nat, upto: nat) returns (mid: nat)
    requires Tiles(a + b, from, upto)
    ensures Tiles(a, from, mid) && Tiles(b, mid, upto)
  {
    if a == [] {
      assert a + b == b;
      mid := from;
    } else {
      assert (a + b)[1..] == a[1..] + b;
      mid := TilesSplit(a[1..], b, a[0].hi, upto);
    }
  }

  /** Two blocks of a tiling that begin at the same place are one block. */
  lemma {:induction false} TilesUnique(blocks: seq<Block>, from: nat, upto: nat, x: Block, y: Block)
    requires Tiles(blocks, from, upto) && x in blocks && y in blocks
    requires x.lo < y.hi && y.lo < x.hi
    ensures x == y
  {
    TilesBounds(blocks[1..], blocks[0].hi, upto);
    if x != blocks[0] && y != blocks[0] {
      TilesUnique(blocks[1..], blocks[0].hi, upto, x, y);
    }
  }

  // ---------------------------------------------------------------- the invariant

  /** `rt[u]` is the root of unit `u` in the union-find forest. */
  ghost predicate Forest(parent: seq<nat>, rt: seq<nat>) {
    && |rt| == |parent|
    && forall u :: 0 <= u < |parent| ==>
         && u <= parent[u] < |parent|
         && rt[u] < |parent|
         && rt[parent[u]] == rt[u]
         && (parent[u] == u ==> rt[u] == u)
         && parent[rt[u]] == rt[u]
  }

  /** The proof's view of the bookkeeping: roots, and the hidden interval of each root. */
  datatype Book = Book(rt: seq<nat>, lo: seq<nat>, hi: seq<nat>, ghosts: seq<nat>)
  {
    ghost predicate Sized() { |rt| == |lo| == |hi| && forall g :: g in ghosts ==> g < |rt| && rt[g] < |rt| }
  }

  ghost predicate BlockOk(b: Block, text: Text, k: Book)
    requires k.Sized()
  {
    && b.lo < b.hi <= |text|
    && if b.root < 0 then b.root == -1 && b.parts == [Piece(-1, b.lo, text[b.lo..b.hi])]
       else
         && b.root < |k.rt| && k.rt[b.root] == b.root && k.lo[b.root] == b.lo && k.hi[b.root] == b.hi
         && forall p :: p in b.parts ==> 0 <= p.unit < |k.rt| && k.rt[p.unit] == b.root && p.body != []
  }

  /** A hidden interval strictly inside a hidden block. */
  ghost predicate Inside(b: Block, lo: nat, hi: nat) {
    b.root >= 0 && b.lo < lo < hi < b.hi
  }

  /** An empty mask is a block of its own, or lies strictly inside a block that absorbed it. */
  ghost predicate GhostOk(r: nat, blocks: seq<Block>, k: Book)
    requires k.Sized() && r < |k.rt|
  {
    || (exists b :: b in blocks && b.root == r)
    || (exists b :: b in blocks && Inside(b, k.lo[r], k.hi[r]))
  }

  ghost predicate Inv(text: Text, pieces: seq<Piece>, k: Book, blocks: seq<Block>) {
    && k.Sized()
    && Flatten(blocks) == pieces
    && Tiles(blocks, 0, |text|)
    && (forall b :: b in blocks ==> BlockOk(b, text, k))
    && (forall g :: g in k.ghosts ==> GhostOk(k.rt[g], blocks, k))
    && (forall b :: b in blocks && b.root >= 0 && b.parts == [] ==> exists g :: g in k.ghosts && k.rt[g] == b.root)
  }

  // ---------------------------------------------------------------- cutting a piece

  /** The block and the place in it of the piece between `out` and `rest`. */
  lemma {:induction false} AtPiece(blocks: seq<Block>, out: seq<Piece>, p: Piece, rest: seq<Piece>) returns (i: nat, u: nat)
    requires Flatten(blocks) == out + [p] + rest
    ensures i < |blocks| && u < |blocks[i].parts| && blocks[i].parts[u] == p
    ensures out == Flatten(blocks[..i]) + blocks[i].parts[..u]
    ensures rest == blocks[i].parts[u + 1..] + Flatten(blocks[i + 1..])
  {
    i, u := Locate(blocks, |out|);
    var F := Flatten(blocks[..i]) + blocks[i].parts + Flatten(blocks[i + 1..]);
    assert F == out + [p] + rest;
    assert out == F[..|out|];
    assert rest == F[|out| + 1..];
    assert F[|out|] == p;
  }

  /** Putting other blocks in place of a stretch of blocks. */
  lemma {:induction false} Surgery(before: seq<Block>, gone: seq<Block>, mid: seq<Block>, after: seq<Block>, lo: nat, hi: nat, n: nat)
    requires Tiles(before + gone + after, 0, n) && gone != [] && lo == gone[0].lo && hi == gone[|gone| - 1].hi
    requires Tiles(mid, lo, hi)
    ensures Tiles(before + mid + after, 0, n)
    ensures Tiles(before, 0, lo) && Tiles(gone, lo, hi) && Tiles(after, hi, n)
    ensures Flatten(before + mid + after) == Flatten(before) + Flatten(mid) + Flatten(after)
  {
    var z := TilesSplit(before + gone, after, 0, n);
    var m := TilesSplit(before, gone, 0, z);
    TilesBounds(gone, m, z);
    TilesJoin(before, mid, 0, lo, hi);
    TilesJoin(before + mid, after, 0, hi, n);
    FlattenConcat(before + mid, after);
    FlattenConcat(before, mid);
  }

  lemma {:induction false} FlattenOne(b: Block)
    ensures Flatten([b]) == b.parts
  {
    assert [b][1..] == [];
  }

  /** Cut the part at `u` of a block in two. */
  lemma {:induction false} CutBlock(text: Text, b: Block, u: nat, a: nat, k: Book) returns (mid: seq<Block>)
    requires k.Sized() && BlockOk(b, text, k) && u < |b.parts| && 0 < a < |b.parts[u].body|
    ensures var p := b.parts[u];
            Flatten(mid) == b.parts[..u] + [Cut(p, 0, a), Cut(p, a, |p.body|)] + b.parts[u + 1..]
    ensures Tiles(mid, b.lo, b.hi)
    ensures forall m :: m in mid ==> BlockOk(m, text, k)
    ensures b.root < 0 ==> forall m :: m in mid ==> m.root < 0
    ensures b.root >= 0 ==> |mid| == 1 && mid[0].root == b.root && mid[0].lo == b.lo
                            && mid[0].hi == b.hi && mid[0].parts != []
  {
    var p := b.parts[u];
    var left, right := Cut(p, 0, a), Cut(p, a, |p.body|);
    if b.root < 0 {
      var x, y := Block(-1, b.lo, b.lo + a, [left]), Block(-1, b.lo + a, b.hi, [right]);
      mid := [x, y];
      assert text[b.lo..b.hi][..a] == text[b.lo..b.lo + a];
      assert text[b.lo..b.hi][a..] == text[b.lo + a..b.hi];
      assert u == 0 && p == Piece(-1, b.lo, text[b.lo..b.hi]);
      assert left == Piece(-1, b.lo, text[b.lo..b.lo + a]) && right == Piece(-1, b.lo + a, text[b.lo + a..b.hi]);
      assert BlockOk(x, text, k) && BlockOk(y, text, k);
      FlattenConcat([x], [y]);
      FlattenOne(x);
      FlattenOne(y);
      assert mid == [x] + [y];
      TilesJoin([x], [y], b.lo, b.lo + a, b.hi);
    } else {
      mid := [b.(parts := b.parts[..u] + [left, right] + b.parts[u + 1..])];
      FlattenOne(mid[0]);
      assert p in b.parts;
    }
  }

  lemma {:induction false} Regroup<T>(a: seq<T>, b: seq<T>, c: seq<T>, d: seq<T>, e: seq<T>)
    ensures a + (b + c + d) + e == (a + b) + c + (d + e)
  {
  }

  lemma {:induction false} SplitPiece(text: Text, out: seq<Piece>, p: Piece, rest: seq<Piece>, a: nat, k: Book, blocks: seq<Block>)
    returns (blocks': seq<Block>)
    requires Inv(text, out + [p] + rest, k, blocks)
    requires 0 < a < |p.body|
    ensures Inv(text, out + [Cut(p, 0, a), Cut(p, a, |p.body|)] + rest, k, blocks')
  {
    hide Flatten, Tiles, BlockOk, GhostOk;
    var i, u := AtPiece(blocks, out, p, rest);
    var b := blocks[i];
    assert b in blocks;
    var mid := CutBlock(text, b, u, a, k);
    blocks' := blocks[..i] + mid + blocks[i + 1..];
    assert blocks == blocks[..i] + [b] + blocks[i + 1..];
    Surgery(blocks[..i], [b], mid, blocks[i + 1..], b.lo, b.hi, |text|);
    Regroup(Flatten(blocks[..i]), b.parts[..u], [Cut(p, 0, a), Cut(p, a, |p.body|)], b.parts[u + 1..], Flatten(blocks[i + 1..]));
    SplitKeeps(text, k, blocks, i, mid);
  }

  /** Replacing a block by the blocks it was cut into keeps what the invariant says of roots and ghosts. */
  lemma {:induction false} SplitKeeps(text: Text, k: Book, blocks: seq<Block>, i: nat, mid: seq<Block>)
    requires k.Sized() && i < |blocks|
    requires forall b :: b in blocks ==> BlockOk(b, text, k)
    requires forall g :: g in k.ghosts ==> GhostOk(k.rt[g], blocks, k)
    requires forall b :: b in blocks && b.root >= 0 && b.parts == [] ==> exists g :: g in k.ghosts && k.rt[g] == b.root
    requires forall b :: b in mid ==> BlockOk(b, text, k)
    requires blocks[i].root < 0 ==> forall b :: b in mid ==> b.root < 0
    requires blocks[i].root >= 0 ==> |mid| == 1 && mid[0].root == blocks[i].root && mid[0].lo == blocks[i].lo
                                     && mid[0].hi == blocks[i].hi && mid[0].parts != []
    ensures var blocks' := blocks[..i] + mid + blocks[i + 1..];
            && (forall b :: b in blocks' ==> BlockOk(b, text, k))
            && (forall g :: g in k.ghosts ==> GhostOk(k.rt[g], blocks', k))
            && (forall b :: b in blocks' && b.root >= 0 && b.parts == [] ==> exists g :: g in k.ghosts && k.rt[g] == b.root)
  {
    var blocks' := blocks[..i] + mid + blocks[i + 1..];
    forall b | b in blocks' ensures b in blocks || b in mid {
    }
    forall b | b in blocks ensures b in blocks' || b == blocks[i] {
    }
    forall g | g in k.ghosts ensures GhostOk(k.rt[g], blocks', k) {
      if b :| b in blocks && b.root == k.rt[g] {
        if b !in blocks' {
          assert mid[0] in blocks';
        }
      } else {
        var b :| b in blocks && Inside(b, k.lo[k.rt[g]], k.hi[k.rt[g]]);
        if b !in blocks' {
          assert mid[0] in blocks' && Inside(mid[0], k.lo[k.rt[g]], k.hi[k.rt[g]]);
        }
      }
    }
  }

  // ---------------------------------------------------------------- putting a mask in place of a run of pieces

  /** Where the original stretch behind a piece begins and ends. */
  ghost function PLo(p: Piece, k: Book): nat {
    if p.unit < 0 then p.start
    else if p.unit < |k.rt| && k.rt[p.unit] < |k.lo| then k.lo[k.rt[p.unit]] else 0
  }

  ghost function PHi(p: Piece, k: Book): nat {
    if p.unit < 0 then p.start + |p.body|
    else if p.unit < |k.rt| && k.rt[p.unit] < |k.hi| then k.hi[k.rt[p.unit]] else 0
  }

  /** A new unit takes over the roots of everything a match touched. */
  ghost function Union(k: Book, roots: set<nat>, lo: nat, hi: nat, isGhost: bool): Book {
    Book(seq(|k.rt|, i requires 0 <= i < |k.rt| => if k.rt[i] in roots then |k.rt| else k.rt[i]) + [|k.rt|],
         k.lo + [lo], k.hi + [hi], if isGhost then k.ghosts + [|k.rt|] else k.ghosts)
  }

  /** What consuming the pieces `run` found out: the roots of its masks, and the bounds of the original behind it. */
  ghost predicate Consumed(run: seq<Piece>, k: Book, roots: set<nat>, lo: nat, hi: nat) {
    && (forall p :: p in run && p.unit >= 0 ==> p.unit < |k.rt| && k.rt[p.unit] in roots)
    && (forall r :: r in roots ==> exists p :: p in run && 0 <= p.unit < |k.rt| && k.rt[p.unit] == r)
    && (forall p :: p in run ==> lo <= PLo(p, k) && PHi(p, k) <= hi)
    && (exists p :: p in run && lo == PLo(p, k))
    && (exists p :: p in run && hi == PHi(p, k))
  }

  /** The parts of a block lie over exactly the block's stretch. */
  lemma {:induction false} PartBounds(b: Block, text: Text, k: Book, p: Piece)
    requires k.Sized() && BlockOk(b, text, k) && p in b.parts
    ensures PLo(p, k) == b.lo && PHi(p, k) == b.hi
    ensures if b.root < 0 then p.unit == -1 else 0 <= p.unit < |k.rt| && k.rt[p.unit] == b.root
  {
    if b.root < 0 {
      assert p == Piece(-1, b.lo, text[b.lo..b.hi]);
      assert |p.body| == b.hi - b.lo;
    }
  }

  /** The blocks `i..=j` that a run of pieces lies in, and what is left of the outer two. */
  lemma {:induction false} AtRun(blocks: seq<Block>, out: seq<Piece>, run: seq<Piece>, rest: seq<Piece>)
    returns (i: nat, u: nat, j: nat, v: nat)
    requires Flatten(blocks) == out + run + rest && run != []
    ensures i <= j < |blocks| && u < |blocks[i].parts| && v < |blocks[j].parts|
    ensures blocks[i].parts[u] == run[0] && blocks[j].parts[v] == run[|run| - 1]
    ensures out == Flatten(blocks[..i]) + blocks[i].parts[..u]
    ensures rest == blocks[j].parts[v + 1..] + Flatten(blocks[j + 1..])
    ensures Flatten(blocks[i..j + 1]) == blocks[i].parts[..u] + run + blocks[j].parts[v + 1..]
    ensures blocks == blocks[..i] + blocks[i..j + 1] + blocks[j + 1..]
  {
    hide *;
    HeadOfRun(out, run, rest);
    i, u := AtPiece(blocks, out, run[0], run[1..] + rest);
    var most := run[..|run| - 1];
    j, v := AtPiece(blocks, out + most, run[|run| - 1], rest);
    NotBefore(blocks, i, j, |out|, |out + most|, u, v);
    assert blocks == blocks[..i] + blocks[i..j + 1] + blocks[j + 1..];
    FlattenConcat(blocks[..i] + blocks[i..j + 1], blocks[j + 1..]);
    FlattenConcat(blocks[..i], blocks[i..j + 1]);
    var F, M, L := Flatten(blocks[..i]), Flatten(blocks[i..j + 1]), Flatten(blocks[j + 1..]);
    Between(F, M, L, blocks[i].parts[..u], run, blocks[j].parts[v + 1..]);
  }

  lemma {:induction false} HeadOfRun<T>(out: seq<T>, run: seq<T>, rest: seq<T>)
    requires run != []
    ensures out + run + rest == out + [run[0]] + (run[1..] + rest)
    ensures out + run + rest == (out + run[..|run| - 1]) + [run[|run| - 1]] + rest
  {
    assert run == [run[0]] + run[1..];
    Assoc(out, [run[0]], run[1..]);
    Assoc(out + [run[0]], run[1..], rest);
    assert run == run[..|run| - 1] + [run[|run| - 1]];
    Assoc(out, run[..|run| - 1], [run[|run| - 1]]);
  }

  /** A later piece does not lie in an earlier block. */
  lemma {:induction false} NotBefore(blocks: seq<Block>, i: nat, j: nat, m: nat, n: nat, u: nat, v: nat)
    requires i < |blocks| && j < |blocks| && v < |blocks[j].parts| && m <= n
    requires m == |Flatten(blocks[..i])| + u && n == |Flatten(blocks[..j])| + v
    ensures i <= j
  {
    if j < i {
      assert blocks[..i] == blocks[..j] + [blocks[j]] + blocks[j + 1..i];
      FlattenConcat(blocks[..j] + [blocks[j]], blocks[j + 1..i]);
      FlattenConcat(blocks[..j], [blocks[j]]);
      FlattenOne(blocks[j]);
    }
  }

  lemma {:induction false} Between<T>(F: seq<T>, M: seq<T>, L: seq<T>, a: seq<T>, run: seq<T>, z: seq<T>)
    requires (F + M) + L == (F + a) + run + (z + L)
    ensures M == a + run + z
  {
    var whole := (F + M) + L;
    var other := (F + a) + run + (z + L);
    assert |M| == |a + run + z|;
    assert M == whole[|F|..|F| + |M|];
    assert a + run + z == other[|F|..|F| + |a + run + z|];
  }

  /** The run covers exactly the stretch of the blocks it lies in; a block of these that gave no root lies inside. */
  lemma {:induction false} RunFacts(text: Text, gone: seq<Block>, run: seq<Piece>, u: nat, v: nat, k: Book,
                 roots: set<nat>, lo: nat, hi: nat)
    requires k.Sized() && (forall b :: b in gone ==> BlockOk(b, text, k))
    requires gone != [] && Tiles(gone, gone[0].lo, gone[|gone| - 1].hi)
    requires run != [] && u < |gone[0].parts| && v < |gone[|gone| - 1].parts|
    requires run[0] == gone[0].parts[u] && run[|run| - 1] == gone[|gone| - 1].parts[v]
    requires Flatten(gone) == gone[0].parts[..u] + run + gone[|gone| - 1].parts[v + 1..]
    requires Consumed(run, k, roots, lo, hi)
    ensures lo == gone[0].lo && hi == gone[|gone| - 1].hi
    ensures forall b :: b in gone ==> lo <= b.lo && b.hi <= hi
    ensures forall r :: r in roots ==> exists b :: b in gone && b.root == r
    ensures forall b :: b in gone && b.root >= 0 && b.root !in roots ==> Inside(Block(0, lo, hi, []), b.lo, b.hi)
  {
    var first, last := gone[0], gone[|gone| - 1];
    TilesBounds(gone, first.lo, last.hi);
    PartBounds(first, text, k, run[0]);
    PartBounds(last, text, k, run[|run| - 1]);
    forall p | p in run
      ensures first.lo <= PLo(p, k) && PHi(p, k) <= last.hi
      ensures p.unit >= 0 ==> exists b :: b in gone && b.root == k.rt[p.unit]
    {
      assert p in Flatten(gone);
      var b := FlattenMember(gone, p);
      PartBounds(b, text, k, p);
    }
    assert run[0] in run && run[|run| - 1] in run;
    forall b | b in gone && b.root >= 0 && b.root !in roots ensures lo < b.lo && b.hi < hi {
      assert b != first && b != last;
      if b.lo == first.lo { TilesUnique(gone, first.lo, last.hi, b, first); }
      if b.hi == last.hi { TilesUnique(gone, first.lo, last.hi, b, last); }
    }
  }

  /** The blocks `gone` between `before` and `after` give way to one hidden block of the new unit. */
  ghost predicate Takeover(text: Text, before: seq<Block>, gone: seq<Block>, after: seq<Block>, b': Block, k: Book,
                           roots: set<nat>, lo: nat, hi: nat, isGhost: bool) {
    && k.Sized()
    && (forall b :: b in before || b in gone || b in after ==> BlockOk(b, text, k))
    && (forall b :: b in before ==> b.hi <= lo)
    && (forall b :: b in after ==> hi <= b.lo)
    && (forall b :: b in gone ==> lo <= b.lo && b.hi <= hi)
    && (forall r :: r in roots ==> exists b :: b in gone && b.root == r)
    && (forall b :: b in gone && b.root >= 0 && b.root !in roots ==> Inside(Block(0, lo, hi, []), b.lo, b.hi))
    && lo < hi <= |text| && b'.root == |k.rt| && b'.lo == lo && b'.hi == hi
    && (forall p :: p in b'.parts ==>
          p.body != [] && (p.unit == |k.rt| || (0 <= p.unit < |k.rt| && k.rt[p.unit] in roots)))
    && (b'.parts == [] ==> isGhost)
  }

  lemma {:induction false} TakeoverBlocks(text: Text, before: seq<Block>, gone: seq<Block>, after: seq<Block>, b': Block, k: Book,
                       roots: set<nat>, lo: nat, hi: nat, isGhost: bool)
    requires Takeover(text, before, gone, after, b', k, roots, lo, hi, isGhost)
    ensures var k' := Union(k, roots, lo, hi, isGhost);
            && k'.Sized()
            && BlockOk(b', text, k')
            && (forall b :: b in before || b in after ==> b.root !in roots && BlockOk(b, text, k'))
  {
    var k' := Union(k, roots, lo, hi, isGhost);
    var unit := |k.rt|;
    assert k'.rt[unit] == unit && k'.lo[unit] == lo && k'.hi[unit] == hi;
    forall b | b in before || b in after ensures b.root !in roots && BlockOk(b, text, k') {
      assert BlockOk(b, text, k);
    }
  }

  lemma {:induction false} TakeoverGhosts(text: Text, before: seq<Block>, gone: seq<Block>, after: seq<Block>, b': Block, k: Book,
                       roots: set<nat>, lo: nat, hi: nat, isGhost: bool, g: nat)
    requires Takeover(text, before, gone, after, b', k, roots, lo, hi, isGhost)
    requires g < |k.rt| && k.rt[g] < |k.rt| && GhostOk(k.rt[g], before + gone + after, k)
    ensures var k' := Union(k, roots, lo, hi, isGhost);
            k'.Sized() && k'.rt[g] < |k'.rt| && GhostOk(k'.rt[g], before + [b'] + after, k')
  {
    var k' := Union(k, roots, lo, hi, isGhost);
    var blocks, blocks' := before + gone + after, before + [b'] + after;
    var r := k.rt[g];
    assert b' in blocks';
    if r !in roots {
      assert k'.rt[g] == r && k'.lo[r] == k.lo[r] && k'.hi[r] == k.hi[r];
      if b :| b in blocks && b.root == r {
        assert BlockOk(b, text, k);
        if b in gone { assert Inside(b', k'.lo[r], k'.hi[r]); } else { assert b in blocks'; }
      } else {
        var b :| b in blocks && Inside(b, k.lo[r], k.hi[r]);
        if b in gone { assert Inside(b', k'.lo[r], k'.hi[r]); } else { assert b in blocks'; }
      }
    }
  }

  /** Taking over the roots of the blocks in the middle keeps what the invariant says of roots and ghosts. */
  lemma {:induction false} UnionKeeps(text: Text, before: seq<Block>, gone: seq<Block>, after: seq<Block>, b': Block, k: Book,
                   roots: set<nat>, lo: nat, hi: nat, isGhost: bool)
    requires Takeover(text, before, gone, after, b', k, roots, lo, hi, isGhost)
    requires forall g :: g in k.ghosts ==> GhostOk(k.rt[g], before + gone + after, k)
    requires forall b :: b in before + gone + after && b.root >= 0 && b.parts == [] ==>
               exists g :: g in k.ghosts && k.rt[g] == b.root
    ensures var k' := Union(k, roots, lo, hi, isGhost);
            var blocks' := before + [b'] + after;
            && k'.Sized()
            && (forall b :: b in blocks' ==> BlockOk(b, text, k'))
            && (forall g :: g in k'.ghosts ==> GhostOk(k'.rt[g], blocks', k'))
            && (forall b :: b in blocks' && b.root >= 0 && b.parts == [] ==>
                  exists g :: g in k'.ghosts && k'.rt[g] == b.root)
  {
    var k' := Union(k, roots, lo, hi, isGhost);
    var blocks' := before + [b'] + after;
    var unit := |k.rt|;
    TakeoverBlocks(text, before, gone, after, b', k, roots, lo, hi, isGhost);
    forall g | g in k'.ghosts ensures GhostOk(k'.rt[g], blocks', k') {
      if g in k.ghosts {
        TakeoverGhosts(text, before, gone, after, b', k, roots, lo, hi, isGhost, g);
      } else {
        assert g == unit && b' in blocks' && b'.root == k'.rt[g];
      }
    }
    forall b | b in blocks' && b.root >= 0 && b.parts == [] ensures exists g :: g in k'.ghosts && k'.rt[g] == b.root {
      if b == b' {
        assert unit in k'.ghosts && k'.rt[unit] == unit;
      } else {
        assert b in before + gone + after;
        var g :| g in k.ghosts && k.rt[g] == b.root;
        assert g in k'.ghosts && k'.rt[g] == b.root;
      }
    }
  }

  lemma {:induction false} ReplaceRun(text: Text, out: seq<Piece>, run: seq<Piece>, rest: seq<Piece>, k: Book, blocks: seq<Block>,
                   roots: set<nat>, lo: nat, hi: nat, mask: Text) returns (blocks': seq<Block>)
    requires Inv(text, out + run + rest, k, blocks) && run != []
    requires Consumed(run, k, roots, lo, hi)
    ensures var shown := if mask == [] then [] else [Piece(|k.rt|, 0, mask)];
            Inv(text, out + shown + rest, Union(k, roots, lo, hi, mask == []), blocks')
  {
    hide Flatten, Tiles, BlockOk, GhostOk;
    var i, u, j, v := AtRun(blocks, out, run, rest);
    var gone := blocks[i..j + 1];
    assert gone[0] == blocks[i] && gone[|gone| - 1] == blocks[j];
    blocks' := ReplaceBlocks(text, blocks[..i], gone, blocks[j + 1..], run, u, v, k, roots, lo, hi, mask);
  }

  lemma {:induction false} ReplaceBlocks(text: Text, before: seq<Block>, gone: seq<Block>, after: seq<Block>, run: seq<Piece>,
                      u: nat, v: nat, k: Book, roots: set<nat>, lo: nat, hi: nat, mask: Text)
    returns (blocks': seq<Block>)
    requires Inv(text, Flatten(before + gone + after), k, before + gone + after)
    requires gone != [] && run != [] && u < |gone[0].parts| && v < |gone[|gone| - 1].parts|
    requires run[0] == gone[0].parts[u] && run[|run| - 1] == gone[|gone| - 1].parts[v]
    requires Flatten(gone) == gone[0].parts[..u] + run + gone[|gone| - 1].parts[v + 1..]
    requires Consumed(run, k, roots, lo, hi)
    ensures var shown := if mask == [] then [] else [Piece(|k.rt|, 0, mask)];
            Inv(text, (Flatten(before) + gone[0].parts[..u]) + shown + (gone[|gone| - 1].parts[v + 1..] + Flatten(after)),
                Union(k, roots, lo, hi, mask == []), blocks')
  {
    hide Flatten, BlockOk, GhostOk;
    var shown := if mask == [] then [] else [Piece(|k.rt|, 0, mask)];
    var left, right := gone[0].parts[..u], gone[|gone| - 1].parts[v + 1..];
    RunTakeover(text, before, gone, after, run, u, v, k, roots, lo, hi);
    var b' := Block(|k.rt|, lo, hi, left + shown + right);
    blocks' := before + [b'] + after;
    Surgery(before, gone, [b'], after, lo, hi, |text|);
    FlattenOne(b');
    Regroup(Flatten(before), left, shown, right, Flatten(after));
    assert gone[0] in gone && gone[|gone| - 1] in gone;
    LeftOvers(text, gone[0], u, gone[|gone| - 1], v, run, k, roots, shown);
    UnionKeeps(text, before, gone, after, b', k, roots, lo, hi, mask == []);
  }

  /** The parts left over beside the run, and the mask shown in its place, belong to the new unit. */
  lemma {:induction false} LeftOvers(text: Text, first: Block, u: nat, last: Block, v: nat, run: seq<Piece>, k: Book, roots: set<nat>,
                  shown: seq<Piece>)
    requires k.Sized() && BlockOk(first, text, k) && BlockOk(last, text, k) && run != []
    requires u < |first.parts| && first.parts[u] == run[0] && v < |last.parts| && last.parts[v] == run[|run| - 1]
    requires forall p :: p in run && p.unit >= 0 ==> p.unit < |k.rt| && k.rt[p.unit] in roots
    requires forall p :: p in shown ==> p.unit == |k.rt| && p.body != []
    ensures forall p :: p in first.parts[..u] + shown + last.parts[v + 1..] ==>
              p.body != [] && (p.unit == |k.rt| || (0 <= p.unit < |k.rt| && k.rt[p.unit] in roots))
  {
    forall p | p in first.parts[..u] + shown + last.parts[v + 1..]
      ensures p.body != [] && (p.unit == |k.rt| || (0 <= p.unit < |k.rt| && k.rt[p.unit] in roots))
    {
      LeftOver(text, first, u, run[0], k, roots, p);
      LeftOver(text, last, v, run[|run| - 1], k, roots, p);
    }
  }

  lemma {:induction false} RunTakeover(text: Text, before: seq<Block>, gone: seq<Block>, after: seq<Block>, run: seq<Piece>,
                    u: nat, v: nat, k: Book, roots: set<nat>, lo: nat, hi: nat)
    requires k.Sized() && gone != [] && Tiles(before + gone + after, 0, |text|)
    requires forall b :: b in before + gone + after ==> BlockOk(b, text, k)
    requires run != [] && u < |gone[0].parts| && v < |gone[|gone| - 1].parts|
    requires run[0] == gone[0].parts[u] && run[|run| - 1] == gone[|gone| - 1].parts[v]
    requires Flatten(gone) == gone[0].parts[..u] + run + gone[|gone| - 1].parts[v + 1..]
    requires Consumed(run, k, roots, lo, hi)
    ensures lo == gone[0].lo && hi == gone[|gone| - 1].hi
    ensures Takeover(text, before, gone, after, Block(|k.rt|, lo, hi, []), k, roots, lo, hi, true)
  {
    var z := TilesSplit(before + gone, after, 0, |text|);
    var m := TilesSplit(before, gone, 0, z);
    TilesBounds(gone, m, z);
    TilesBounds(before, 0, m);
    TilesBounds(after, z, |text|);
    forall b | b in before || b in gone || b in after ensures BlockOk(b, text, k) {
      assert b in before + gone + after;
    }
    RunFacts(text, gone, run, u, v, k, roots, lo, hi);
    assert gone[0] in gone;
  }

  /** A part left over beside the run belongs to a root the run gave. */
  lemma {:induction false} LeftOver(text: Text, b: Block, u: nat, hit: Piece, k: Book, roots: set<nat>, p: Piece)
    requires k.Sized() && BlockOk(b, text, k) && u < |b.parts| && b.parts[u] == hit
    requires hit.unit >= 0 ==> hit.unit < |k.rt| && k.rt[hit.unit] in roots
    ensures p in b.parts[..u] + b.parts[u + 1..] ==>
              p.body != [] && 0 <= p.unit < |k.rt| && k.rt[p.unit] in roots
  {
    PartBounds(b, text, k, hit);
    if p in b.parts[..u] + b.parts[u + 1..] {
      assert p in b.parts;
    }
  }

  // ---------------------------------------------------------------- the bookkeeping in motion

  /** Root of a unit, halving the path on the way (the closure `find`). */
  method Find(parent: seq<nat>, unit: nat, ghost rt: seq<nat>) returns (parent': seq<nat>, root: nat)
    requires Forest(parent, rt) && unit < |parent|
    ensures Forest(parent', rt) && |parent'| == |parent| && root == rt[unit]
  {
    parent', root := parent, unit;
    while parent'[root] != root
      invariant Forest(parent', rt) && |parent'| == |parent| && root < |parent'| && rt[root] == rt[unit]
      decreases |parent'| - root
    {
      parent' := parent'[root := parent'[parent'[root]]];
      root := parent'[root];
    }
  }

  /** The smallest of the roots' bounds and of the untouched stretches' bound. */
  method Least(roots: set<nat>, bounds: seq<nat>, first: Option<nat>) returns (m: nat)
    requires forall r :: r in roots ==> r < |bounds|
    requires roots != {} || first.Some?
    ensures IsLeast(m, bounds, roots, first)
  {
    var todo := roots;
    if first.Some? {
      m := first.value;
    } else {
      var r :| r in todo;
      m := bounds[r];
    }
    while todo != {}
      invariant todo <= roots
      invariant (first.Some? && m == first.value) || exists r :: r in roots && m == bounds[r]
      invariant (forall r :: r in roots - todo ==> m <= bounds[r]) && (first.Some? ==> m <= first.value)
      decreases todo
    {
      var r :| r in todo;
      todo := todo - {r};
      if bounds[r] < m { m := bounds[r]; }
    }
  }

  method Greatest(roots: set<nat>, bounds: seq<nat>, last: Option<nat>) returns (m: nat)
    requires forall r :: r in roots ==> r < |bounds|
    requires roots != {} || last.Some?
    ensures IsGreatest(m, bounds, roots, last)
  {
    var todo := roots;
    if last.Some? {
      m := last.value;
    } else {
      var r :| r in todo;
      m := bounds[r];
    }
    while todo != {}
      invariant todo <= roots
      invariant (last.Some? && m == last.value) || exists r :: r in roots && m == bounds[r]
      invariant (forall r :: r in roots - todo ==> bounds[r] <= m) && (last.Some? ==> last.value <= m)
      decreases todo
    {
      var r :| r in todo;
      todo := todo - {r};
      if m < bounds[r] { m := bounds[r]; }
    }
  }

  /** A new unit becomes the parent of every given root. */
  method Adopt(parent: seq<nat>, roots: set<nat>, ghost k: Book, ghost lo: nat, ghost hi: nat, ghost isGhost: bool)
    returns (parent': seq<nat>)
    requires k.Sized() && Forest(parent, k.rt) && forall r :: r in roots ==> r < |parent| && k.rt[r] == r
    ensures Forest(parent', Union(k, roots, lo, hi, isGhost).rt)
  {
    var unit := |parent|;
    parent' := parent + [unit];
    var todo := roots;
    while todo != {}
      invariant todo <= roots && |parent'| == |parent| + 1 && parent'[unit] == unit
      invariant forall u :: 0 <= u < |parent| ==> parent'[u] == if u in roots && u !in todo then unit else parent[u]
      decreases todo
    {
      var r :| r in todo;
      todo := todo - {r};
      parent' := parent'[r := unit];
    }
    assert |parent'| == |parent| + 1 == |k.rt| + 1;
    AdoptForest(parent, parent', k, roots, lo, hi, isGhost);
  }

  lemma {:induction false} AdoptForest(parent: seq<nat>, parent': seq<nat>, k: Book, roots: set<nat>, lo: nat, hi: nat, isGhost: bool)
    requires Forest(parent, k.rt) && forall r :: r in roots ==> r < |parent| && k.rt[r] == r
    requires |parent'| == |parent| + 1 && parent'[|parent|] == |parent|
    requires forall u :: 0 <= u < |parent| ==> parent'[u] == if u in roots then |parent| else parent[u]
    ensures Forest(parent', Union(k, roots, lo, hi, isGhost).rt)
  {
    var rt' := Union(k, roots, lo, hi, isGhost).rt;
    forall u | 0 <= u < |parent'|
      ensures u <= parent'[u] < |parent'| && rt'[u] < |parent'| && rt'[parent'[u]] == rt'[u]
              && (parent'[u] == u ==> rt'[u] == u) && parent'[rt'[u]] == rt'[u]
    {
      if u < |parent| {
        assert k.rt[parent[u]] == k.rt[u] && parent[k.rt[u]] == k.rt[u];
      }
    }
  }

  lemma {:induction false} PiecesNonEmpty(text: Text, pieces: seq<Piece>, k: Book, blocks: seq<Block>)
    requires Inv(text, pieces, k, blocks)
    ensures forall p :: p in pieces ==> p.body != [] && (p.unit >= 0 ==> p.unit < |k.rt| && k.rt[p.unit] < |k.rt| && k.rt[k.rt[p.unit]] == k.rt[p.unit])
    ensures forall p :: p in pieces && p.unit < 0 ==> p.unit == -1
  {
    forall p | p in pieces
      ensures p.body != [] && (p.unit >= 0 ==> p.unit < |k.rt| && k.rt[p.unit] < |k.rt| && k.rt[k.rt[p.unit]] == k.rt[p.unit])
      ensures p.unit < 0 ==> p.unit == -1
    {
      var b := FlattenMember(blocks, p);
      PartBounds(b, text, k, p);
      if b.root < 0 { assert p == Piece(-1, b.lo, text[b.lo..b.hi]); }
    }
  }

  /** The first piece off the queue, in terms of characters. */
  lemma {:induction false} CellsHead(queue: seq<Piece>, cells: seq<Cell>, offset: nat)
    requires queue != [] && offset <= |cells| && Cells(queue) == cells[offset..]
    ensures offset + |queue[0].body| <= |cells|
    ensures PieceCells(queue[0]) == cells[offset..offset + |queue[0].body|]
    ensures Cells(queue[1..]) == cells[offset + |queue[0].body|..]
  {
    hide PieceCells;
    var n := |queue[0].body|;
    assert Cells(queue) == PieceCells(queue[0]) + Cells(queue[1..]);
    assert PieceCells(queue[0]) == Cells(queue)[..n] == cells[offset..][..n];
    assert Cells(queue[1..]) == Cells(queue)[n..] == cells[offset..][n..];
  }

  lemma {:induction false} CellsSnoc(out: seq<Piece>, p: Piece)
    ensures Cells(out + [p]) == Cells(out) + PieceCells(p)
  {
    CellsConcat(out, [p]);
    assert [p][1..] == [];
    assert Cells([p]) == PieceCells(p) + [];
  }

  /** Moving the first piece of the queue to the output. */
  lemma {:induction false} PassHead(out: seq<Piece>, queue: seq<Piece>, cells: seq<Cell>, begin: nat, offset: nat, before: seq<Cell>)
    requires queue != [] && begin <= offset <= |cells| && Cells(queue) == cells[offset..]
    requires Cells(out) == before + cells[begin..offset]
    ensures var next := offset + |queue[0].body|;
            && next <= |cells| && Cells(queue[1..]) == cells[next..]
            && Cells(out + [queue[0]]) == before + cells[begin..next]
            && (out + [queue[0]]) + queue[1..] == out + queue
  {
    CellsHead(queue, cells, offset);
    var next := offset + |queue[0].body|;
    CellsSnoc(out, queue[0]);
    Assoc(before, cells[begin..offset], cells[offset..next]);
    JoinSlices(cells, begin, offset, next);
    Assoc(out, [queue[0]], queue[1..]);
    assert [queue[0]] + queue[1..] == queue;
  }

  lemma {:induction false} CellsCons(p: Piece, rest: seq<Piece>)
    ensures Cells([p] + rest) == PieceCells(p) + Cells(rest)
  {
    assert ([p] + rest)[1..] == rest;
  }

  /** Cutting the first piece of the queue: its left part goes to the output. */
  lemma {:induction false} CutHead(out: seq<Piece>, queue: seq<Piece>, cells: seq<Cell>, begin: nat, offset: nat, a: nat, before: seq<Cell>)
    requires queue != [] && begin <= offset <= |cells| && Cells(queue) == cells[offset..] && a <= |queue[0].body|
    requires Cells(out) == before + cells[begin..offset]
    ensures offset + a <= |cells|
    ensures Cells([Cut(queue[0], a, |queue[0].body|)] + queue[1..]) == cells[offset + a..]
    ensures Cells(out + [Cut(queue[0], 0, a)]) == before + cells[begin..offset + a]
  {
    hide *;
    var piece, n := queue[0], |queue[0].body|;
    CellsHead(queue, cells, offset);
    CellsOfCut(piece, a);
    var left, right := Cut(piece, 0, a), Cut(piece, a, n);
    assert PieceCells(left) == cells[offset..offset + a];
    assert PieceCells(right) == cells[offset + a..offset + n];
    CellsSnoc(out, left);
    Assoc(before, cells[begin..offset], cells[offset..offset + a]);
    JoinSlices(cells, begin, offset, offset + a);
    CellsCons(right, queue[1..]);
    JoinSlices(cells, offset + a, offset + n, |cells|);
    assert cells[offset + a..] == cells[offset + a..|cells|];
    assert cells[offset + n..] == cells[offset + n..|cells|];
  }

  lemma {:induction false} CutInPlace<T>(out: seq<T>, head: T, tail: seq<T>, left: T, right: T)
    ensures out + ([head] + tail) == out + [head] + tail
    ensures out + [left, right] + tail == (out + [left]) + ([right] + tail)
  {
  }

  /** Pass the pieces that end before a match. */
  method SkipBefore(out0: seq<Piece>, queue0: seq<Piece>, offset0: nat, ms: nat, ghost cells: seq<Cell>)
    returns (out: seq<Piece>, queue: seq<Piece>, offset: nat)
    requires offset0 <= ms < |cells| && Cells(queue0) == cells[offset0..]
    ensures out + queue == out0 + queue0
    ensures offset0 <= offset <= ms && Cells(queue) == cells[offset..]
    ensures queue != [] && ms < offset + |queue[0].body|
    ensures Cells(out) == Cells(out0) + cells[offset0..offset]
  {
    out, queue, offset := out0, queue0, offset0;
    ghost var before := Cells(out0);
    while queue != [] && offset + |queue[0].body| <= ms
      invariant out + queue == out0 + queue0
      invariant offset0 <= offset <= ms && Cells(queue) == cells[offset..]
      invariant Cells(out) == before + cells[offset0..offset]
      decreases |queue|
    {
      PassHead(out, queue, cells, offset0, offset, before);
      out := out + [queue[0]];
      offset := offset + |queue[0].body|;
      queue := queue[1..];
    }
  }

  /** Come to the start of a match, cutting the piece it begins in. */
  method SeekTo(ghost text: Text, out0: seq<Piece>, queue0: seq<Piece>, offset0: nat, ms: nat,
                ghost k: Book, ghost blocks0: seq<Block>, ghost cells: seq<Cell>)
    returns (out: seq<Piece>, queue: seq<Piece>, offset: nat, ghost blocks: seq<Block>)
    requires Inv(text, out0 + queue0, k, blocks0)
    requires offset0 <= ms < |cells| && Cells(queue0) == cells[offset0..]
    ensures Inv(text, out + queue, k, blocks)
    ensures offset == ms && Cells(queue) == cells[ms..] && Cells(out) == Cells(out0) + cells[offset0..ms]
    ensures |out| + |queue| <= |out0| + |queue0| + 1
  {
    hide *;
    out, queue, offset := SkipBefore(out0, queue0, offset0, ms, cells);
    blocks := blocks0;
    assert |out + queue| == |out0 + queue0|;
    if offset < ms {
      var piece, rest := queue[0], queue[1..];
      var left, right := Cut(piece, 0, ms - offset), Cut(piece, ms - offset, |piece.body|);
      CutHead(out, queue, cells, offset0, offset, ms - offset, Cells(out0));
      assert queue == [piece] + rest;
      CutInPlace(out, piece, rest, left, right);
      blocks := SplitPiece(text, out, piece, rest, ms - offset, k, blocks);
      out := out + [left];
      queue := [right] + rest;
      offset := ms;
    }
  }

  /** What has been learned of the pieces taken so far. */
  ghost predicate Taken(run: seq<Piece>, k: Book, roots: set<nat>, first: Option<nat>, last: Option<nat>) {
    && k.Sized()
    && (forall p :: p in run && p.unit >= 0 ==> p.unit < |k.rt| && k.rt[p.unit] in roots)
    && (forall r :: r in roots ==> r < |k.rt| && k.rt[r] == r && exists p :: p in run && 0 <= p.unit < |k.rt| && k.rt[p.unit] == r)
    && (first.Some? <==> last.Some?)
    && (forall p :: p in run && p.unit < 0 ==> first.Some? && first.value <= p.start && p.start + |p.body| <= last.value)
    && (first.Some? ==> exists p :: p in run && p.unit < 0 && p.start == first.value)
    && (last.Some? ==> exists p :: p in run && p.unit < 0 && p.start + |p.body| == last.value)
  }

  lemma {:induction false} TakenMore(run: seq<Piece>, p: Piece, k: Book, roots: set<nat>, first: Option<nat>, last: Option<nat>,
                  roots': set<nat>, first': Option<nat>, last': Option<nat>)
    requires Taken(run, k, roots, first, last)
    requires p.unit < 0 ==>
               && roots' == roots
               && first' == Some(if first.None? || p.start < first.value then p.start else first.value)
               && last' == Some(if last.None? || last.value < p.start + |p.body| then p.start + |p.body| else last.value)
    requires p.unit >= 0 ==>
               && p.unit < |k.rt| && k.rt[p.unit] < |k.rt| && k.rt[k.rt[p.unit]] == k.rt[p.unit]
               && roots' == roots + {k.rt[p.unit]} && first' == first && last' == last
    ensures Taken(run + [p], k, roots', first', last')
  {
    var run' := run + [p];
    assert p in run';
    assert forall q :: q in run' <==> q in run || q == p;
  }

  /** Learn what the first `take` characters of a piece stand for. */
  method Learn(piece: Piece, take: nat, parent0: seq<nat>, roots0: set<nat>, first0: Option<nat>, last0: Option<nat>,
               ghost k: Book, ghost run: seq<Piece>)
    returns (parent: seq<nat>, roots: set<nat>, first: Option<nat>, last: Option<nat>)
    requires Forest(parent0, k.rt) && Taken(run, k, roots0, first0, last0) && take <= |piece.body|
    requires PieceOk(piece, k)
    ensures Forest(parent, k.rt) && |parent| == |parent0| && Taken(run + [Cut(piece, 0, take)], k, roots, first, last)
  {
    parent, roots, first, last := parent0, roots0, first0, last0;
    if piece.unit < 0 {
      first := Some(if first.None? || piece.start < first.value then piece.start else first.value);
      last := Some(if last.None? || last.value < piece.start + take then piece.start + take else last.value);
    } else {
      var root;
      parent, root := Find(parent, piece.unit, k.rt);
      roots := roots + {root};
    }
    TakenMore(run, Cut(piece, 0, take), k, roots0, first0, last0, roots, first, last);
  }

  ghost predicate PieceOk(p: Piece, k: Book) {
    && p.body != []
    && (p.unit >= 0 ==> p.unit < |k.rt| && k.rt[p.unit] < |k.rt| && k.rt[k.rt[p.unit]] == k.rt[p.unit])
  }

  lemma {:induction false} HeadOk(text: Text, out: seq<Piece>, run: seq<Piece>, queue: seq<Piece>, k: Book, blocks: seq<Block>)
    requires Inv(text, out + run + queue, k, blocks) && queue != []
    ensures PieceOk(queue[0], k)
  {
    PiecesNonEmpty(text, out + run + queue, k, blocks);
    assert queue[0] in out + run + queue;
  }

  /** Move the head of the queue, or its first `take` characters, to the run. */
  lemma {:induction false} TakeHead(text: Text, out: seq<Piece>, run: seq<Piece>, queue: seq<Piece>, take: nat, k: Book,
                 blocks: seq<Block>, cells: seq<Cell>, offset: nat) returns (blocks': seq<Block>)
    requires Inv(text, out + run + queue, k, blocks) && queue != [] && 0 < take <= |queue[0].body|
    requires offset <= |cells| && Cells(queue) == cells[offset..]
    ensures var n := |queue[0].body|;
            var queue' := if take < n then [Cut(queue[0], take, n)] + queue[1..] else queue[1..];
            && Inv(text, out + (run + [Cut(queue[0], 0, take)]) + queue', k, blocks')
            && offset + take <= |cells| && Cells(queue') == cells[offset + take..]
  {
    hide Inv;
    var piece, rest := queue[0], queue[1..];
    assert queue == [piece] + rest;
    CellsHead(queue, cells, offset);
    if take < |piece.body| {
      blocks' := CutTaken(text, out, run, piece, rest, take, k, blocks);
      CutHead([], queue, cells, offset, offset, take, []);
    } else {
      WholeTaken(out, run, piece, rest);
      blocks' := blocks;
    }
  }

  lemma {:induction false} TakenNothing(k: Book)
    requires k.Sized()
    ensures Taken([], k, {}, None, None)
  {
  }

  /** Take the pieces a match covers off the queue, cutting the one it ends in. */
  method TakeTo(ghost text: Text, ghost out: seq<Piece>, queue0: seq<Piece>, ms: nat, me: nat, parent0: seq<nat>,
                ghost k: Book, ghost blocks0: seq<Block>, ghost cells: seq<Cell>)
    returns (queue: seq<Piece>, parent: seq<nat>, roots: set<nat>, first: Option<nat>, last: Option<nat>,
             ghost run: seq<Piece>, ghost blocks: seq<Block>)
    requires Inv(text, out + queue0, k, blocks0) && Forest(parent0, k.rt)
    requires ms < me <= |cells| && Cells(queue0) == cells[ms..]
    ensures Inv(text, out + run + queue, k, blocks) && Forest(parent, k.rt) && |parent| == |parent0|
    ensures run != [] && Taken(run, k, roots, first, last)
    ensures Cells(queue) == cells[me..] && |queue| <= |queue0|
  {
    assert k.Sized();
    hide Inv, Forest, PieceOk, Flatten;
    assert k.Sized();
    var offset := ms;
    queue, parent, roots, first, last, run, blocks := queue0, parent0, {}, None, None, [], blocks0;
    assert out + [] == out;
    TakenNothing(k);
    hide Taken;
    while queue != [] && offset < me
      invariant Inv(text, out + run + queue, k, blocks) && Forest(parent, k.rt) && |parent| == |parent0|
      invariant ms <= offset <= me && Cells(queue) == cells[offset..]
      invariant Taken(run, k, roots, first, last)
      invariant offset > ms <==> run != []
      invariant |run| + |queue| <= |queue0| + if offset == me then 1 else 0
      decreases me - offset
    {
      HeadOk(text, out, run, queue, k, blocks);
      var piece := queue[0];
      var size := |piece.body|;
      var take := if size < me - offset then size else me - offset;
      parent, roots, first, last := Learn(piece, take, parent, roots, first, last, k, run);
      blocks := TakeHead(text, out, run, queue, take, k, blocks, cells, offset);
      queue := queue[1..];
      if take < size {
        queue := [Cut(piece, take, size)] + queue;
      }
      run := run + [Cut(piece, 0, take)];
      offset := offset + take;
    }
    if queue == [] { assert Cells(queue) == []; }
  }

  lemma {:induction false} WholeTaken(out: seq<Piece>, run: seq<Piece>, piece: Piece, rest: seq<Piece>)
    ensures Cut(piece, 0, |piece.body|) == piece
    ensures out + run + ([piece] + rest) == out + (run + [piece]) + rest
  {
    assert piece.body[0..|piece.body|] == piece.body;
  }

  lemma {:induction false} CutTaken(text: Text, out: seq<Piece>, run: seq<Piece>, piece: Piece, rest: seq<Piece>, take: nat,
                 k: Book, blocks: seq<Block>) returns (blocks': seq<Block>)
    requires Inv(text, out + run + ([piece] + rest), k, blocks) && 0 < take < |piece.body|
    ensures Inv(text, out + (run + [Cut(piece, 0, take)]) + ([Cut(piece, take, |piece.body|)] + rest), k, blocks')
  {
    hide *;
    var left, right := Cut(piece, 0, take), Cut(piece, take, |piece.body|);
    CutInPlace(out + run, piece, rest, left, right);
    Assoc(out, run, [left]);
    blocks' := SplitPiece(text, out + run, piece, rest, take, k, blocks);
  }

  ghost predicate IsLeast(lo: nat, bounds: seq<nat>, roots: set<nat>, first: Option<nat>) {
    && (forall r :: r in roots ==> r < |bounds| && lo <= bounds[r]) && (first.Some? ==> lo <= first.value)
    && ((first.Some? && lo == first.value) || exists r :: r in roots && lo == bounds[r])
  }

  ghost predicate IsGreatest(hi: nat, bounds: seq<nat>, roots: set<nat>, last: Option<nat>) {
    && (forall r :: r in roots ==> r < |bounds| && bounds[r] <= hi) && (last.Some? ==> last.value <= hi)
    && ((last.Some? && hi == last.value) || exists r :: r in roots && hi == bounds[r])
  }

  lemma {:induction false} TakenLo(run: seq<Piece>, k: Book, roots: set<nat>, first: Option<nat>, last: Option<nat>, lo: nat)
    requires Taken(run, k, roots, first, last) && IsLeast(lo, k.lo, roots, first)
    ensures (forall p :: p in run ==> lo <= PLo(p, k)) && exists p :: p in run && lo == PLo(p, k)
  {
    if first.Some? && lo == first.value {
      var p :| p in run && p.unit < 0 && p.start == first.value;
      assert PLo(p, k) == lo;
    } else {
      var r :| r in roots && lo == k.lo[r];
      var p :| p in run && 0 <= p.unit < |k.rt| && k.rt[p.unit] == r;
      assert PLo(p, k) == lo;
    }
  }

  lemma {:induction false} TakenHi(run: seq<Piece>, k: Book, roots: set<nat>, first: Option<nat>, last: Option<nat>, hi: nat)
    requires Taken(run, k, roots, first, last) && IsGreatest(hi, k.hi, roots, last)
    ensures (forall p :: p in run ==> PHi(p, k) <= hi) && exists p :: p in run && hi == PHi(p, k)
  {
    if last.Some? && hi == last.value {
      var p :| p in run && p.unit < 0 && p.start + |p.body| == last.value;
      assert PHi(p, k) == hi;
    } else {
      var r :| r in roots && hi == k.hi[r];
      var p :| p in run && 0 <= p.unit < |k.rt| && k.rt[p.unit] == r;
      assert PHi(p, k) == hi;
    }
  }

  lemma {:induction false} TakenIsConsumed(run: seq<Piece>, k: Book, roots: set<nat>, first: Option<nat>, last: Option<nat>, lo: nat, hi: nat)
    requires Taken(run, k, roots, first, last)
    requires IsLeast(lo, k.lo, roots, first) && IsGreatest(hi, k.hi, roots, last)
    ensures Consumed(run, k, roots, lo, hi)
  {
    TakenLo(run, k, roots, first, last, lo);
    TakenHi(run, k, roots, first, last, hi);
  }

  lemma {:induction false} TakenSomething(run: seq<Piece>, k: Book, roots: set<nat>, first: Option<nat>, last: Option<nat>)
    requires Taken(run, k, roots, first, last) && run != []
    ensures (roots != {} || first.Some?) && (roots != {} || last.Some?)
  {
    assert run[0] in run;
  }

  /** The union-find arrays and the list of empty masks. */
  datatype Units = Units(parent: seq<nat>, lo: seq<nat>, hi: seq<nat>, ghosts: seq<nat>)

  ghost predicate Keeps(units: Units, k: Book) {
    k.Sized() && Forest(units.parent, k.rt) && units.lo == k.lo && units.hi == k.hi && units.ghosts == k.ghosts
  }

  /** A new unit over the bounds of everything a match touched becomes the parent of its roots. */
  method Grow(ghost run: seq<Piece>, isGhost: bool, units0: Units, roots: set<nat>, first: Option<nat>,
              last: Option<nat>, ghost k0: Book)
    returns (units: Units, ghost lo: nat, ghost hi: nat)
    requires Keeps(units0, k0) && run != [] && Taken(run, k0, roots, first, last)
    ensures Keeps(units, Union(k0, roots, lo, hi, isGhost)) && Consumed(run, k0, roots, lo, hi)
    ensures |units.parent| == |units0.parent| + 1
  {
    TakenSomething(run, k0, roots, first, last);
    var unit := |units0.parent|;
    var least := Least(roots, units0.lo, first);
    var greatest := Greatest(roots, units0.hi, last);
    lo, hi := least, greatest;
    TakenIsConsumed(run, k0, roots, first, last, lo, hi);
    UnionSized(k0, roots, lo, hi, isGhost);
    var parent := Adopt(units0.parent, roots, k0, lo, hi, isGhost);
    units := Units(parent, units0.lo + [least], units0.hi + [greatest],
                   if isGhost then units0.ghosts + [unit] else units0.ghosts);
  }

  /** Show a mask in place of the pieces taken, as a new unit that takes over their roots. */
  method Place(ghost text: Text, out0: seq<Piece>, ghost run: seq<Piece>, queue: seq<Piece>, mask: Text,
               units0: Units, roots: set<nat>, first: Option<nat>, last: Option<nat>,
               ghost k0: Book, ghost blocks0: seq<Block>)
    returns (out: seq<Piece>, units: Units, ghost k: Book, ghost blocks: seq<Block>)
    requires Inv(text, out0 + run + queue, k0, blocks0) && Keeps(units0, k0)
    requires run != [] && Taken(run, k0, roots, first, last)
    ensures Inv(text, out + queue, k, blocks) && Keeps(units, k)
    ensures Cells(out) == Cells(out0) + MaskCells(mask)
    ensures |out| <= |out0| + 1
    ensures |units.parent| == |units0.parent| + 1
  {
    assert |units0.parent| == |k0.rt|;
    hide Inv, Forest, Taken, Consumed;
    ghost var lo, hi;
    units, lo, hi := Grow(run, mask == [], units0, roots, first, last, k0);
    k := Union(k0, roots, lo, hi, mask == []);
    blocks := ReplaceRun(text, out0, run, queue, k0, blocks0, roots, lo, hi, mask);
    if mask != [] {
      CellsSnoc(out0, Piece(|units0.parent|, 0, mask));
      out := out0 + [Piece(|units0.parent|, 0, mask)];
    } else {
      assert out0 + [] == out0;
      assert out0 + [] + queue == out0 + queue;
      assert Cells(out0) + MaskCells([]) == Cells(out0);
      out := out0;
    }
  }

  /** Put the replacement of one match in place of the pieces it covers. */
  method ApplyMatch(ghost text: Text, out0: seq<Piece>, queue0: seq<Piece>, offset0: nat, m: Match, mask: Text,
                    units0: Units, ghost k0: Book, ghost blocks0: seq<Block>, ghost cells: seq<Cell>)
    returns (out: seq<Piece>, queue: seq<Piece>, units: Units, ghost k: Book, ghost blocks: seq<Block>)
    requires Inv(text, out0 + queue0, k0, blocks0) && Keeps(units0, k0)
    requires offset0 <= m.start < m.end <= |cells| && Cells(queue0) == cells[offset0..]
    ensures Inv(text, out + queue, k, blocks) && Keeps(units, k)
    ensures Cells(queue) == cells[m.end..]
    ensures Cells(out) == Cells(out0) + cells[offset0..m.start] + MaskCells(mask)
    ensures |out| + |queue| <= |out0| + |queue0| + 2
    ensures |units.parent| == |units0.parent| + 1
  {
    hide Inv, Forest, Taken, Cells;
    var offset, parent, roots, first, last;
    ghost var run;
    out, queue, offset, blocks := SeekTo(text, out0, queue0, offset0, m.start, k0, blocks0, cells);
    queue, parent, roots, first, last, run, blocks :=
      TakeTo(text, out, queue, m.start, m.end, units0.parent, k0, blocks, cells);
    out, units, k, blocks :=
      Place(text, out, run, queue, mask, units0.(parent := parent), roots, first, last, k0, blocks);
  }

  lemma {:induction false} UnionSized(k: Book, roots: set<nat>, lo: nat, hi: nat, isGhost: bool)
    requires k.Sized()
    ensures Union(k, roots, lo, hi, isGhost).Sized()
  {
  }

  /** Carrying out one more edit. */
  lemma {:induction false} ApplyStep<T>(s: seq<T>, edits: seq<Edit<T>>, n: nat, from: nat, before: seq<T>, whole: seq<T>)
    requires n < |edits| && Ordered(edits[n..], from, |s|)
    requires before + Replace(s, edits[n..], from) == whole
    ensures from <= edits[n].start <= edits[n].end <= |s| && Ordered(edits[n + 1..], edits[n].end, |s|)
    ensures (before + s[from..edits[n].start] + edits[n].mask) + Replace(s, edits[n + 1..], edits[n].end) == whole
  {
    OrderedBounds(edits[n..], from, |s|);
    assert edits[n..][1..] == edits[n + 1..];
  }

  /** The characters done and the edits still to do make up the whole. */
  ghost predicate Pending(done: seq<Cell>, cells: seq<Cell>, edits: seq<Edit<Cell>>, offset: nat, whole: seq<Cell>) {
    Ordered(edits, offset, |cells|) && done + Replace(cells, edits, offset) == whole
  }

  lemma {:induction false} PendingStep(done: seq<Cell>, cells: seq<Cell>, edits: seq<Edit<Cell>>, offset: nat, whole: seq<Cell>)
    requires edits != [] && Pending(done, cells, edits, offset, whole)
    ensures offset <= edits[0].start <= edits[0].end <= |cells|
    ensures Pending(done + cells[offset..edits[0].start] + edits[0].mask, cells, edits[1..], edits[0].end, whole)
  {
    assert edits[0..] == edits;
    ApplyStep(cells, edits, 0, offset, done, whole);
  }

  /** One rule of `find_masked_spans`: every match of the current text gives way to its replacement. */
  method ApplyRule(ghost text: Text, rule: Rule, current: Text, pieces0: seq<Piece>, units0: Units,
                   ghost k0: Book, ghost blocks0: seq<Block>)
    returns (pieces: seq<Piece>, units: Units, ghost k: Book, ghost blocks: seq<Block>)
    requires rule.Valid() && Inv(text, pieces0, k0, blocks0) && Keeps(units0, k0)
    requires current == Chars(Cells(pieces0))
    ensures Inv(text, pieces, k, blocks) && Keeps(units, k)
    ensures Ordered(CellEdits(RuleEdits(rule, current)), 0, |current|)
    ensures Cells(pieces) == Replace(Cells(pieces0), CellEdits(RuleEdits(rule, current)), 0)
    ensures |pieces| <= |pieces0| + 2 * |NonEmpty(rule.find(current))|
    ensures |units.parent| == |units0.parent| + |NonEmpty(rule.find(current))|
  {
    CellEditsOrdered(RuleEdits(rule, current), 0, |current|);
    ghost var edits := CellEdits(RuleEdits(rule, current));
    ghost var whole := Replace(Cells(pieces0), edits, 0);
    assert Cells([]) + whole == whole;
    pieces, units, k, blocks :=
      ApplyMatches(text, rule, current, pieces0, units0, k0, blocks0, edits, whole);
  }

  method ApplyMatches(ghost text: Text, rule: Rule, current: Text, pieces0: seq<Piece>, units0: Units,
                      ghost k0: Book, ghost blocks0: seq<Block>, ghost edits: seq<Edit<Cell>>, ghost whole: seq<Cell>)
    returns (pieces: seq<Piece>, units: Units, ghost k: Book, ghost blocks: seq<Block>)
    requires rule.Valid() && Inv(text, pieces0, k0, blocks0) && Keeps(units0, k0)
    requires current == Chars(Cells(pieces0))
    requires edits == CellEdits(RuleEdits(rule, current)) && Pending([], Cells(pieces0), edits, 0, whole)
    ensures Inv(text, pieces, k, blocks) && Keeps(units, k)
    ensures Cells(pieces) == whole
    ensures |pieces| <= |pieces0| + 2 * |NonEmpty(rule.find(current))|
    ensures |units.parent| == |units0.parent| + |NonEmpty(rule.find(current))|
  {
    hide Inv, Keeps, RuleEdits, CellEdits;
    var matches := NonEmpty(rule.find(current));
    ghost var cells := Cells(pieces0);
    EditOfMatch(rule, current, edits);
    var out, queue, offset: nat := [], pieces0, 0;
    units, k, blocks := units0, k0, blocks0;
    assert [] + pieces0 == pieces0 && edits[0..] == edits;
    for n := 0 to |matches|
      invariant Inv(text, out + queue, k, blocks) && Keeps(units, k)
      invariant offset <= |cells| && Cells(queue) == cells[offset..]
      invariant Pending(Cells(out), cells, edits[n..], offset, whole)
      invariant |out| + |queue| <= |pieces0| + 2 * n
      invariant |units.parent| == |units0.parent| + n
    {
      var m := matches[n];
      PendingStep(Cells(out), cells, edits[n..], offset, whole);
      assert edits[n..][1..] == edits[n + 1..];
      var mask := rule.Replacement(current, m);
      out, queue, units, k, blocks := ApplyMatch(text, out, queue, offset, m, mask, units, k, blocks, cells);
      offset := m.end;
    }
    pieces := out + queue;
    CellsConcat(out, queue);
    assert edits[|matches|..] == [];
  }

  lemma {:induction false} EditOfMatch(rule: Rule, current: Text, edits: seq<Edit<Cell>>)
    requires rule.Valid() && edits == CellEdits(RuleEdits(rule, current))
    ensures |edits| == |NonEmpty(rule.find(current))|
    ensures forall n :: 0 <= n < |edits| ==>
              var m := NonEmpty(rule.find(current))[n];
              m.start < m.end <= |current| && edits[n] == Edit(m.start, m.end, MaskCells(rule.Replacement(current, m)))
  {
    NonEmptyInOrder(rule.find(current), 0, |current|);
    assert forall m :: m in NonEmpty(rule.find(current)) ==> m.start < m.end;
  }
}
