/** Sector allocation of a compound file (_cfb.py `write`, `read`): the size of the FAT, chains, and following them. */
module CfbAlloc {
  import opened Base
  import opened CfbFormat

  /** Entries in one FAT sector. */
  const PER_SECTOR: nat := 128
  /** FAT sectors listed in the header itself. */
  const HEADER_DIFAT: nat := 109
  /** FAT sectors listed in one DIFAT sector; its last word leads to the next one. */
  const PER_DIFAT: nat := 127

  // ---------------------------------------------------------------- how many FAT and DIFAT sectors

  /** DIFAT sectors for `fat` FAT sectors. */
  function NeedDifat(fat: nat): (n: nat)
    ensures fat <= HEADER_DIFAT + PER_DIFAT * n
    ensures n > 0 ==> HEADER_DIFAT + PER_DIFAT * (n - 1) < fat
  {
    if fat <= HEADER_DIFAT then 0 else CeilDiv(fat - HEADER_DIFAT, PER_DIFAT)
  }

  /** One round of the sizing loop. */
  function NextFat(data: nat, fat: nat): nat {
    CeilDiv(data + fat + NeedDifat(fat), PER_SECTOR)
  }

  lemma {:induction false} NextFatMonotone(data: nat, f: nat, g: nat)
    requires f <= g
    ensures NextFat(data, f) <= NextFat(data, g)
    ensures f <= data + 2 ==> NextFat(data, f) <= data + 2
  {
    LeastDifat(f, NeedDifat(g));
    DivMonotone(data + f + NeedDifat(f) + 127, data + g + NeedDifat(g) + 127);
  }

  lemma {:induction false} DivMonotone(a: nat, b: nat)
    requires a <= b
    ensures a / 128 <= b / 128
  {
  }

  /** The sizing loop from `fat` on. */
  function FatCount(data: nat, fat: nat): nat
    requires fat <= NextFat(data, fat) && fat <= data + 2
    decreases data + 2 - fat
  {
    var next := NextFat(data, fat);
    NextFatMonotone(data, fat, next);
    if next == fat then fat else FatCount(data, next)
  }

  /** The FAT has an entry for every sector, its own and the DIFAT's included, and the DIFAT lists every FAT sector. */
  ghost predicate Suffices(data: nat, fat: nat, difat: nat) {
    data + fat + difat <= PER_SECTOR * fat && fat <= HEADER_DIFAT + PER_DIFAT * difat
  }

  /** The loop ends for every amount of data, and with the smallest FAT that suffices. */
  lemma {:induction false} FatCountIsLeast(data: nat, fat: nat)
    requires fat <= NextFat(data, fat) && fat <= data + 2
    requires forall f, d :: Suffices(data, f, d) ==> fat <= f
    ensures var f := FatCount(data, fat);
            && NextFat(data, f) == f && Suffices(data, f, NeedDifat(f))
            && forall g, d :: Suffices(data, g, d) ==> f <= g && NeedDifat(f) <= d
    decreases data + 2 - fat
  {
    var next := NextFat(data, fat);
    NextFatMonotone(data, fat, next);
    forall f, d | Suffices(data, f, d)
      ensures next <= f && NeedDifat(fat) <= d
    {
      LeastDifat(f, d);
      LeastDifat(fat, d);
      NextFatMonotone(data, fat, f);
      CeilLeast(data + f + NeedDifat(f), f);
    }
    if next != fat { FatCountIsLeast(data, next); } else { CeilDivBounds(data + fat + NeedDifat(fat), PER_SECTOR); }
  }

  lemma {:induction false} LeastDifat(fat: nat, difat: nat)
    requires fat <= HEADER_DIFAT + PER_DIFAT * difat
    ensures NeedDifat(fat) <= difat
  {
  }

  lemma {:induction false} CeilLeast(n: nat, f: nat)
    requires n <= PER_SECTOR * f
    ensures CeilDiv(n, PER_SECTOR) <= f
  {
  }

  /** `while True`: grow the FAT until it also covers itself. */
  method SizeFat(data: nat) returns (fat: nat, difat: nat)
    ensures NextFat(data, 0) >= 0 && fat == FatCount(data, 0) && difat == NeedDifat(fat)
    ensures Suffices(data, fat, difat)
    ensures forall f, d :: Suffices(data, f, d) ==> fat <= f && difat <= d
  {
    fat, difat := 0, 0;
    while true
      invariant fat <= NextFat(data, fat) && fat <= data + 2 && difat == NeedDifat(fat)
      invariant FatCount(data, fat) == FatCount(data, 0)
      decreases data + 2 - fat
    {
      var total := data + fat + difat;
      var needFat := CeilDiv(total, PER_SECTOR);
      var needDifat := NeedDifat(needFat);
      NextFatMonotone(data, fat, needFat);
      if needFat == fat && needDifat == difat { break; }
      fat, difat := needFat, needDifat;
    }
    FatCountIsLeast(data, 0);
  }

  // ---------------------------------------------------------------- chains

  /** The numbers `first..first + count`. */
  function Range(first: nat, count: nat): (r: seq<nat>)
    ensures |r| == count
  {
    seq(count, i requires 0 <= i < count => first + i)
  }

  lemma {:induction false} RangeStep(first: nat, count: nat)
    requires count > 0
    ensures Range(first, count) == [first] + Range(first + 1, count - 1)
  {
  }

  /** FAT entries of `count` sectors in a row: each leads to the next, the last ends the chain. */
  function ChainWords(first: nat, count: nat): (words: seq<nat>)
    ensures |words| == count
  {
    seq(count, i requires 0 <= i < count => if i == count - 1 then ENDOFCHAIN else first + i + 1)
  }

  function Fill(word: nat, count: nat): (words: seq<nat>)
    ensures |words| == count
  {
    seq(count, _ => word)
  }

  /** `place`: chain `count` sectors from `cursor` on. */
  method Place(fat: array<nat>, cursor: nat, count: nat) returns (first: nat, next: nat)
    requires cursor + count <= fat.Length
    modifies fat
    ensures first == (if count == 0 then ENDOFCHAIN else cursor) && next == cursor + count
    ensures fat[..] == old(fat[..cursor]) + ChainWords(cursor, count) + old(fat[cursor + count..])
  {
    if count == 0 {
      assert fat[..] == fat[..cursor] + fat[cursor..];
      return ENDOFCHAIN, cursor;
    }
    first := cursor;
    for i := 0 to count - 1
      invariant forall s :: cursor <= s < cursor + i ==> fat[s] == s + 1
      invariant forall s :: 0 <= s < cursor || cursor + i <= s < fat.Length ==> fat[s] == old(fat[s])
    {
      fat[first + i] := first + i + 1;
    }
    fat[first + count - 1] := ENDOFCHAIN;
    next := cursor + count;
  }

  /** The numbers below `n`. */
  ghost function Upto(n: nat): (all: set<nat>)
    ensures forall i: nat :: i in all <==> i < n
  {
    if n == 0 then {} else Upto(n - 1) + {n - 1}
  }

  /** `chain`: the sectors from `start` on, until an entry that is no sector number. */
  function Follow(start: nat, table: seq<nat>, visited: set<nat>): Option<seq<nat>>
    decreases Upto(|table|) - visited
  {
    if start > MAXREGSECT then Some([])
    else if start in visited || start >= |table| then None
    else match Follow(table[start], table, visited + {start})
      case Some(rest) => Some([start] + rest)
      case None => None
  }

  /** A chain of distinct sectors, each naming the next; the last one names none. */
  ghost predicate IsChain(start: nat, table: seq<nat>, sectors: seq<nat>)
    decreases sectors
  {
    if start > MAXREGSECT then sectors == []
    else
      && sectors != [] && sectors[0] == start && start < |table| && start !in sectors[1..]
      && IsChain(table[start], table, sectors[1..])
  }

  /** Following finds the chain that is there, and only that; a ring or a number beyond the table is none. */
  lemma {:induction false} FollowExactly(start: nat, table: seq<nat>, visited: set<nat>, sectors: seq<nat>)
    ensures Follow(start, table, visited) == Some(sectors)
       <==> IsChain(start, table, sectors) && forall s :: s in sectors ==> s !in visited
    decreases Upto(|table|) - visited
  {
    if start <= MAXREGSECT && start !in visited && start < |table| {
      if sectors != [] && sectors[0] == start {
        FollowExactly(table[start], table, visited + {start}, sectors[1..]);
        assert sectors == [start] + sectors[1..];
      }
    }
  }

  /** The loop form, with the list so far and the visited set. None stands for a broken chain. */
  method Chain(start0: nat, table: seq<nat>) returns (r: Option<seq<nat>>)
    ensures r == Follow(start0, table, {})
  {
    var start: nat := start0;
    var out: seq<nat>, visited: set<nat> := [], {};
    AfterNothing(Follow(start0, table, {}));
    while start <= MAXREGSECT
      invariant Follow(start0, table, {}) == After(out, Follow(start, table, visited))
      decreases Upto(|table|) - visited
    {
      if start in visited || start >= |table| { return None; }
      visited := visited + {start};
      AfterJoin(out, start, Follow(table[start], table, visited));
      out := out + [start];
      start := table[start];
    }
    assert Follow(start, table, visited) == Some([]);
    assert out + [] == out;
    return Some(out);
  }

  lemma {:induction false} AfterNothing<T>(rest: Option<seq<T>>)
    ensures After([], rest) == rest
  {
    if rest.Some? { assert [] + rest.value == rest.value; }
  }

  function After<T>(out: seq<T>, rest: Option<seq<T>>): Option<seq<T>> {
    match rest case Some(more) => Some(out + more) case None => None
  }

  lemma {:induction false} AfterJoin<T>(out: seq<T>, x: T, rest: Option<seq<T>>)
    ensures After(out, After([x], rest)) == After(out + [x], rest)
  {
    if rest.Some? { Assoc(out, [x], rest.value); }
  }

  /** A row of chained entries is followed from its first sector to its end. */
  lemma {:induction false} FollowRow(start: nat, end: nat, table: seq<nat>, visited: set<nat>)
    requires start < end <= |table| && end <= MAXREGSECT + 1
    requires forall s :: start <= s < end ==> table[s] == if s == end - 1 then ENDOFCHAIN else s + 1
    requires forall v :: v in visited ==> v < start
    ensures Follow(start, table, visited) == Some(Range(start, end - start))
    decreases end - start
  {
    var next: nat := table[start];
    if start + 1 < end {
      FollowRow(start + 1, end, table, visited + {start});
      assert Range(start, end - start) == [start] + Range(start + 1, end - start - 1);
    } else {
      assert Follow(next, table, visited + {start}) == Some([]);
      assert [start] + [] == [start] == Range(start, end - start);
    }
  }

  lemma {:induction false} FollowChain(start: nat, count: nat, table: seq<nat>)
    requires start + count <= |table| && start + count <= MAXREGSECT + 1
    requires table[start..start + count] == ChainWords(start, count)
    ensures Follow(if count == 0 then ENDOFCHAIN else start, table, {}) == Some(Range(start, count))
  {
    var row := table[start..start + count];
    assert forall s :: start <= s < start + count ==> table[s] == row[s - start];
    if count > 0 { FollowRow(start, start + count, table, {}); }
  }
}
