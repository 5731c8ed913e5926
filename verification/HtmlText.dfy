/** Masking one text segment whose character references are resolved for the search (files.py `_mask_html_text`). */
module HtmlText {
  import opened Base

  /** A reference at `start..end` of the segment and the characters it stands for: none, one or several. */
  datatype Entity = Entity(start: nat, end: nat, value: Text)

  /** A place of the written text. */
  datatype Place = Place(start: nat, end: nat)

  ghost predicate EntitiesIn(entities: seq<Entity>, from: nat, n: nat) {
    if entities == [] then from <= n
    else from <= entities[0].start < entities[0].end <= n && EntitiesIn(entities[1..], entities[0].end, n)
  }

  // ---------------------------------------------------------------- the table of places, character by character

  function Plain(from: nat, upto: nat): (places: seq<Place>)
    ensures |places| == if from <= upto then upto - from else 0
    decreases upto - from
  {
    if from >= upto then [] else [Place(from, from + 1)] + Plain(from + 1, upto)
  }

  function Repeat(p: Place, n: nat): (places: seq<Place>)
    ensures |places| == n && forall i :: 0 <= i < n ==> places[i] == p
  {
    if n == 0 then [] else [p] + Repeat(p, n - 1)
  }

  /** The text with its references resolved. */
  function Decoded(segment: Text, entities: seq<Entity>, from: nat): Text
    requires EntitiesIn(entities, from, |segment|)
  {
    EntitiesFit(entities, from, |segment|);
    if entities == [] then segment[from..]
    else segment[from..entities[0].start] + entities[0].value + Decoded(segment, entities[1..], entities[0].end)
  }

  /** For every decoded character the written text it comes from: itself, or its whole reference. */
  ghost function Table(entities: seq<Entity>, from: nat, n: nat): seq<Place>
    requires EntitiesIn(entities, from, n)
  {
    EntitiesFit(entities, from, n);
    if entities == [] then Plain(from, n)
    else
      Plain(from, entities[0].start) + Repeat(Place(entities[0].start, entities[0].end), |entities[0].value|)
      + Table(entities[1..], entities[0].end, n)
  }

  lemma {:induction false} EntitiesFit(entities: seq<Entity>, from: nat, n: nat)
    requires EntitiesIn(entities, from, n)
    ensures from <= n && (entities != [] ==> entities[0].start < entities[0].end <= n)
  {
    if entities != [] { EntitiesFit(entities[1..], entities[0].end, n); }
  }

  lemma {:induction false} TableLength(segment: Text, entities: seq<Entity>, from: nat)
    requires EntitiesIn(entities, from, |segment|)
    ensures |Table(entities, from, |segment|)| == |Decoded(segment, entities, from)|
  {
    EntitiesFit(entities, from, |segment|);
    if entities != [] { TableLength(segment, entities[1..], entities[0].end); }
  }

  lemma {:induction false} PlainAt(from: nat, upto: nat, i: nat)
    requires from + i < upto
    ensures Plain(from, upto)[i] == Place(from + i, from + i + 1)
    decreases i
  {
    if i > 0 { PlainAt(from + 1, upto, i - 1); }
  }

  // ---------------------------------------------------------------- the rows and shifts of the program

  /** Decoded start and end, written start and end of one reference; `shift` for what follows it. */
  datatype Row = Row(from: nat, upto: nat, start: nat, end: nat, shift: int)

  /** The rows, when `length` decoded characters come before place `from`. */
  function Rows(entities: seq<Entity>, from: nat, length: nat): (rows: seq<Row>)
    ensures |rows| == |entities|
  {
    if entities == [] then []
    else
      var e := entities[0];
      var at := length + if e.start < from then 0 else e.start - from;
      [Row(at, at + |e.value|, e.start, e.end, e.end - (at + |e.value|))] + Rows(entities[1..], e.end, at + |e.value|)
  }

  lemma {:induction false} RowsStep(entities: seq<Entity>, from: nat, length: nat, n: nat)
    requires EntitiesIn(entities, from, n) && entities != []
    ensures var e := entities[0]; var at := length + (e.start - from);
            && from <= e.start && EntitiesIn(entities[1..], e.end, n)
            && Rows(entities, from, length)
                 == [Row(at, at + |e.value|, e.start, e.end, e.end - (at + |e.value|))]
                    + Rows(entities[1..], e.end, at + |e.value|)
  {
  }

  lemma {:induction false} RowsAscend(entities: seq<Entity>, from: nat, length: nat, n: nat, k: nat)
    requires EntitiesIn(entities, from, n) && k < |entities|
    ensures var row := Rows(entities, from, length)[k];
            && length <= row.from <= row.upto
            && forall j :: 0 <= j < k ==> Rows(entities, from, length)[j].upto <= row.from
  {
    RowsStep(entities, from, length, n);
    if k > 0 {
      var e := entities[0];
      var at := length + (e.start - from);
      RowsAscend(entities[1..], e.end, at + |e.value|, n, k - 1);
      forall j | 0 <= j < k
        ensures Rows(entities, from, length)[j].upto <= Rows(entities, from, length)[k].from
      {
        if j > 0 {
          assert Rows(entities, from, length)[j] == Rows(entities[1..], e.end, at + |e.value|)[j - 1];
        }
      }
    }
  }

  /** `raw_range`, when `k` is the last row that does not begin behind the character (-1 if there is none). */
  function RangeAt(rows: seq<Row>, index: nat, k: int): Place
    requires -1 <= k < |rows|
    requires k >= 0 ==> index < rows[k].upto || 0 <= index + rows[k].shift
  {
    if k >= 0 && index < rows[k].upto then Place(rows[k].start, rows[k].end)
    else
      var moved := index + if k >= 0 then rows[k].shift else 0;
      Place(moved, moved + 1)
  }

  /** The search by rows and shifts finds the place the table gives. */
  lemma {:induction false} RangeIsTable(entities: seq<Entity>, from: nat, length: nat, n: nat, index: nat, k: int)
    requires EntitiesIn(entities, from, n) && length <= index < length + |Table(entities, from, n)|
    requires -1 <= k < |entities|
    requires k >= 0 ==> Rows(entities, from, length)[k].from <= index
    requires k + 1 < |entities| ==> index < Rows(entities, from, length)[k + 1].from
    ensures var rows := Rows(entities, from, length);
            && (k >= 0 ==> index < rows[k].upto || 0 <= index + rows[k].shift)
            && Table(entities, from, n)[index - length]
                 == if k >= 0 then RangeAt(rows, index, k) else Place(from + (index - length), from + (index - length) + 1)
    decreases |entities|
  {
    hide *;
    EntitiesFit(entities, from, n);
    if entities == [] {
      TableNone(from, n, index - length);
    } else {
      RowsStep(entities, from, length, n);
      var e, rest := entities[0], entities[1..];
      var at: nat := length + (e.start - from);
      TableStep(entities, from, n, index - length);
      assert Rows(entities, from, length)[0] == Row(at, at + |e.value|, e.start, e.end, e.end - (at + |e.value|));
      if k > 0 {
        RowsAscend(entities, from, length, n, k);
        assert at + |e.value| <= index;
      }
      if index < at {
        assert k == -1;
      } else if index < at + |e.value| {
        assert k == 0;
        RangeInside(Rows(entities, from, length), index, 0);
      } else {
        assert k >= 0;
        if k > 0 {
          assert Rows(entities, from, length)[k] == Rows(rest, e.end, at + |e.value|)[k - 1];
        }
        if k + 1 < |entities| {
          assert Rows(entities, from, length)[k + 1] == Rows(rest, e.end, at + |e.value|)[k];
        }
        RangeIsTable(rest, e.end, at + |e.value|, n, index, k - 1);
        RangeShifted(Rows(entities, from, length), Rows(rest, e.end, at + |e.value|), index, k);
      }
    }
  }

  lemma {:induction false} TableNone(from: nat, n: nat, i: nat)
    requires from <= n && i < |Table([], from, n)|
    ensures Table([], from, n)[i] == Place(from + i, from + i + 1)
  {
    PlainAt(from, n, i);
  }

  /** Which part of the table an index falls into. */
  lemma {:induction false} TableStep(entities: seq<Entity>, from: nat, n: nat, i: nat)
    requires EntitiesIn(entities, from, n) && entities != [] && i < |Table(entities, from, n)|
    ensures var e := entities[0]; var gap := e.start - from;
            && EntitiesIn(entities[1..], e.end, n) && gap >= 0
            && (i < gap ==> Table(entities, from, n)[i] == Place(from + i, from + i + 1))
            && (gap <= i < gap + |e.value| ==> Table(entities, from, n)[i] == Place(e.start, e.end))
            && (gap + |e.value| <= i ==>
                  && i - gap - |e.value| < |Table(entities[1..], e.end, n)|
                  && Table(entities, from, n)[i] == Table(entities[1..], e.end, n)[i - gap - |e.value|])
  {
    hide *;
    var e := entities[0];
    TableIs(entities, from, n);
    var gap: nat := e.start - from;
    var whole := Repeat(Place(e.start, e.end), |e.value|);
    InThree(Plain(from, e.start), whole, Table(entities[1..], e.end, n), i);
    if i < gap { PlainAt(from, e.start, i); }
  }

  lemma {:induction false} InThree(a: seq<Place>, b: seq<Place>, c: seq<Place>, i: nat)
    requires i < |a + b + c|
    ensures (a + b + c)[i] == if i < |a| then a[i] else if i < |a| + |b| then b[i - |a|] else c[i - |a| - |b|]
  {
  }

  lemma {:induction false} TableIs(entities: seq<Entity>, from: nat, n: nat)
    requires EntitiesIn(entities, from, n) && entities != []
    ensures var e := entities[0];
            && from <= e.start && EntitiesIn(entities[1..], e.end, n)
            && Table(entities, from, n)
                 == Plain(from, e.start) + Repeat(Place(e.start, e.end), |e.value|) + Table(entities[1..], e.end, n)
  {
  }

  lemma {:induction false} RangeInside(rows: seq<Row>, index: nat, k: nat)
    requires k < |rows| && index < rows[k].upto
    ensures RangeAt(rows, index, k) == Place(rows[k].start, rows[k].end)
  {
  }

  /** One row less in front: the same row, or the shift behind the first one. */
  lemma {:induction false} RangeShifted(rows: seq<Row>, rest: seq<Row>, index: nat, k: nat)
    requires k < |rows| && |rest| == |rows| - 1 && rows[0].upto <= index
    requires k > 0 ==> rest[k - 1] == rows[k] && (index < rest[k - 1].upto || 0 <= index + rest[k - 1].shift)
    requires rows[0].shift == rows[0].end - rows[0].upto
    ensures index < rows[k].upto || 0 <= index + rows[k].shift
    ensures RangeAt(rows, index, k)
         == if k > 0 then RangeAt(rest, index, k - 1)
            else Place(rows[0].end + (index - rows[0].upto), rows[0].end + (index - rows[0].upto) + 1)
  {
  }

  // ---------------------------------------------------------------- building the rows

  /** `finditer` with the values that differ from what is written; decoded text and rows are built side by side. */
  method CollectRows(segment: Text, entities: seq<Entity>) returns (decoded: Text, rows: seq<Row>)
    requires EntitiesIn(entities, 0, |segment|)
    ensures decoded == Decoded(segment, entities, 0) && rows == Rows(entities, 0, 0)
  {
    hide *;
    var pos: nat := 0;
    decoded, rows := [], [];
    assert entities[0..] == entities;
    assert [] + Decoded(segment, entities, 0) == Decoded(segment, entities, 0);
    assert [] + Rows(entities, 0, 0) == Rows(entities, 0, 0);
    EntitiesFit(entities, 0, |segment|);
    for k := 0 to |entities|
      invariant pos <= |segment| && EntitiesIn(entities[k..], pos, |segment|)
      invariant decoded + Decoded(segment, entities[k..], pos) == Decoded(segment, entities, 0)
      invariant rows + Rows(entities[k..], pos, |decoded|) == Rows(entities, 0, 0)
    {
      var e := entities[k];
      ghost var rest := entities[k..];
      assert rest[0] == e && rest[1..] == entities[k + 1..];
      EntitiesFit(rest, pos, |segment|);
      RowsStep(rest, pos, |decoded|, |segment|);
      DecodedStep(segment, rest, pos);
      var at: nat := |decoded| + (e.start - pos);
      var row := Row(at, at + |e.value|, e.start, e.end, e.end - (at + |e.value|));
      Assoc4(decoded, segment[pos..e.start], e.value, Decoded(segment, rest[1..], e.end));
      Assoc(rows, [row], Rows(rest[1..], e.end, at + |e.value|));
      decoded := decoded + segment[pos..e.start] + e.value;
      rows := rows + [row];
      pos := e.end;
    }
    NoEntities(segment, pos, |decoded|);
    assert entities[|entities|..] == [];
    assert rows + [] == rows;
    decoded := decoded + segment[pos..];
  }

  lemma {:induction false} DecodedStep(segment: Text, entities: seq<Entity>, from: nat)
    requires EntitiesIn(entities, from, |segment|) && entities != []
    ensures var e := entities[0];
            && from <= e.start <= e.end <= |segment| && EntitiesIn(entities[1..], e.end, |segment|)
            && Decoded(segment, entities, from) == segment[from..e.start] + e.value + Decoded(segment, entities[1..], e.end)
  {
    EntitiesFit(entities, from, |segment|);
  }

  lemma {:induction false} NoEntities(segment: Text, from: nat, length: nat)
    requires from <= |segment|
    ensures EntitiesIn([], from, |segment|) && Decoded(segment, [], from) == segment[from..] && Rows([], from, length) == []
  {
  }

  /** `raw_range`: `bisect_right` on the starts, then the row or the shift. */
  method RawRange(segment: Text, ghost entities: seq<Entity>, rows: seq<Row>, index: nat) returns (place: Place)
    requires EntitiesIn(entities, 0, |segment|) && rows == Rows(entities, 0, 0)
    requires index < |Table(entities, 0, |segment|)|
    ensures place == Table(entities, 0, |segment|)[index]
  {
    hide Rows, Table, EntitiesIn;
    var lo, hi := 0, |rows|;
    while lo < hi
      invariant 0 <= lo <= hi <= |rows|
      invariant lo > 0 ==> rows[lo - 1].from <= index
      invariant hi < |rows| ==> index < rows[hi].from
    {
      var mid := (lo + hi) / 2;
      if rows[mid].from <= index { lo := mid + 1; } else { hi := mid; }
    }
    var k := lo - 1;
    RangeIsTable(entities, 0, 0, |segment|, index, k);
    if k >= 0 && index < rows[k].upto { return Place(rows[k].start, rows[k].end); }
    var moved := index + if k >= 0 then rows[k].shift else 0;
    return Place(moved, moved + 1);
  }
}
