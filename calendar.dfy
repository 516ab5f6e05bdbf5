/**
 * The extraction that runs inside the loaded page (api/graph.ts, lines 38-61): each
 * group of the calendar becomes a week, each cell of a group a day record, and one
 * pass keeps the running highest and lowest count.
 */
module Calendar {
  import opened Wrappers

  /**
   * A `rect` cell of the calendar: its `data-*` attributes, and `+dataset.count`
   * as already read (None stands for NaN, which every comparison rejects).
   */
  datatype Cell = Cell(dataset: map<string, string>, count: Option<int>)

  /** `{days: [...]}`: one record per cell, each a copy of the cell's attributes. */
  datatype Week = Week(days: seq<map<string, string>>)

  /** The value `page.evaluate` returns. */
  datatype Extraction = Extraction(weeks: seq<Week>, highest: int, lowest: int)

  /** One week per group, one day per cell, each day the cell's attributes, all in document order. */
  ghost predicate Copies(groups: seq<seq<Cell>>, weeks: seq<Week>) {
    && |weeks| == |groups|
    && forall a | 0 <= a < |groups| ::
         && |weeks[a].days| == |groups[a]|
         && forall b | 0 <= b < |groups[a]| :: weeks[a].days[b] == groups[a][b].dataset
  }

  ghost predicate RowAtMost(row: seq<Cell>, h: int) {
    forall b | 0 <= b < |row| && row[b].count.Some? :: row[b].count.value <= h
  }

  ghost predicate RowAtLeast(row: seq<Cell>, l: int) {
    forall b | 0 <= b < |row| && row[b].count.Some? :: l <= row[b].count.value
  }

  ghost predicate RowHas(row: seq<Cell>, v: int) {
    exists b | 0 <= b < |row| :: row[b].count == Some(v)
  }

  ghost predicate GridAtMost(groups: seq<seq<Cell>>, h: int) {
    forall a | 0 <= a < |groups| :: RowAtMost(groups[a], h)
  }

  ghost predicate GridAtLeast(groups: seq<seq<Cell>>, l: int) {
    forall a | 0 <= a < |groups| :: RowAtLeast(groups[a], l)
  }

  ghost predicate GridHas(groups: seq<seq<Cell>>, v: int) {
    exists a | 0 <= a < |groups| :: RowHas(groups[a], v)
  }

  /** `highest` after the pass: at least 0 and every count, and 0 or one of the counts. */
  ghost predicate IsHighest(groups: seq<seq<Cell>>, h: int) {
    0 <= h && GridAtMost(groups, h) && (h == 0 || GridHas(groups, h))
  }

  /** `lowest` after the pass: at most 0 and every count, and 0 or one of the counts. */
  ghost predicate IsLowest(groups: seq<seq<Cell>>, l: int) {
    l <= 0 && GridAtLeast(groups, l) && (l == 0 || GridHas(groups, l))
  }

  function Max(x: int, y: int): (r: int) { if x < y then y else x }

  function Min(x: int, y: int): (r: int) { if x < y then x else y }

  /** max(0, numeric counts of the row). */
  function RowMax(row: seq<Cell>): (r: int) {
    if row == [] then 0
    else match row[0].count
      case Some(c) => Max(c, RowMax(row[1..]))
      case None => RowMax(row[1..])
  }

  /** min(0, numeric counts of the row). */
  function RowMin(row: seq<Cell>): (r: int) {
    if row == [] then 0
    else match row[0].count
      case Some(c) => Min(c, RowMin(row[1..]))
      case None => RowMin(row[1..])
  }

  /** max(0, every numeric count of the calendar). */
  function GridMax(groups: seq<seq<Cell>>): (r: int) {
    if groups == [] then 0 else Max(RowMax(groups[0]), GridMax(groups[1..]))
  }

  /** min(0, every numeric count of the calendar). */
  function GridMin(groups: seq<seq<Cell>>): (r: int) {
    if groups == [] then 0 else Min(RowMin(groups[0]), GridMin(groups[1..]))
  }

  /** What extraction returns for a calendar: its shape copied, and the two folds. */
  ghost predicate Extracted(groups: seq<seq<Cell>>, g: Extraction) {
    Copies(groups, g.weeks) && g.highest == GridMax(groups) && g.lowest == GridMin(groups)
  }

  lemma {:induction false} RowMaxIsHighest(row: seq<Cell>)
    ensures 0 <= RowMax(row) && RowAtMost(row, RowMax(row))
    ensures RowMax(row) == 0 || RowHas(row, RowMax(row))
  {
    if row != [] {
      RowMaxIsHighest(row[1..]);
      var m := RowMax(row[1..]);
      forall b | 1 <= b < |row| ensures row[b] == row[1..][b - 1] { }
      if RowMax(row) != 0 && RowMax(row) == m {
        var b :| 0 <= b < |row[1..]| && row[1..][b].count == Some(m);
        assert row[b + 1].count == Some(m);
      }
    }
  }

  lemma {:induction false} RowMinIsLowest(row: seq<Cell>)
    ensures RowMin(row) <= 0 && RowAtLeast(row, RowMin(row))
    ensures RowMin(row) == 0 || RowHas(row, RowMin(row))
  {
    if row != [] {
      RowMinIsLowest(row[1..]);
      var m := RowMin(row[1..]);
      forall b | 1 <= b < |row| ensures row[b] == row[1..][b - 1] { }
      if RowMin(row) != 0 && RowMin(row) == m {
        var b :| 0 <= b < |row[1..]| && row[1..][b].count == Some(m);
        assert row[b + 1].count == Some(m);
      }
    }
  }

  /** The fold max(0, counts) is the highest value the pass is meant to find. */
  lemma {:induction false} GridMaxIsHighest(groups: seq<seq<Cell>>)
    ensures IsHighest(groups, GridMax(groups))
  {
    if groups != [] {
      GridMaxIsHighest(groups[1..]);
      RowMaxIsHighest(groups[0]);
      var m := GridMax(groups[1..]);
      forall a | 1 <= a < |groups| ensures groups[a] == groups[1..][a - 1] { }
      if GridMax(groups) != 0 && GridMax(groups) == m && m != RowMax(groups[0]) {
        var a :| 0 <= a < |groups[1..]| && RowHas(groups[1..][a], m);
        assert RowHas(groups[a + 1], m);
      }
    }
  }

  /** The fold min(0, counts) is the lowest value the pass is meant to find. */
  lemma {:induction false} GridMinIsLowest(groups: seq<seq<Cell>>)
    ensures IsLowest(groups, GridMin(groups))
  {
    if groups != [] {
      GridMinIsLowest(groups[1..]);
      RowMinIsLowest(groups[0]);
      var m := GridMin(groups[1..]);
      forall a | 1 <= a < |groups| ensures groups[a] == groups[1..][a - 1] { }
      if GridMin(groups) != 0 && GridMin(groups) == m && m != RowMin(groups[0]) {
        var a :| 0 <= a < |groups[1..]| && RowHas(groups[1..][a], m);
        assert RowHas(groups[a + 1], m);
      }
    }
  }

  /** Only one value is the highest: it is max(0, counts). */
  lemma HighestIsMax(groups: seq<seq<Cell>>, h: int)
    requires IsHighest(groups, h)
    ensures h == GridMax(groups)
  {
    GridMaxIsHighest(groups);
    var m := GridMax(groups);
    if h != 0 {
      var a, b :| 0 <= a < |groups| && 0 <= b < |groups[a]| && groups[a][b].count == Some(h);
      assert RowAtMost(groups[a], m);
    }
    if m != 0 {
      var a, b :| 0 <= a < |groups| && 0 <= b < |groups[a]| && groups[a][b].count == Some(m);
      assert RowAtMost(groups[a], h);
    }
  }

  /** Only one value is the lowest: it is min(0, counts). */
  lemma LowestIsMin(groups: seq<seq<Cell>>, l: int)
    requires IsLowest(groups, l)
    ensures l == GridMin(groups)
  {
    GridMinIsLowest(groups);
    var m := GridMin(groups);
    if l != 0 {
      var a, b :| 0 <= a < |groups| && 0 <= b < |groups[a]| && groups[a][b].count == Some(l);
      assert RowAtLeast(groups[a], m);
    }
    if m != 0 {
      var a, b :| 0 <= a < |groups| && 0 <= b < |groups[a]| && groups[a][b].count == Some(m);
      assert RowAtLeast(groups[a], l);
    }
  }

  /** When no count is negative, `lowest` keeps its starting value 0. */
  lemma NonNegativeCountsKeepLowestZero(groups: seq<seq<Cell>>)
    requires forall a, b | 0 <= a < |groups| && 0 <= b < |groups[a]| && groups[a][b].count.Some? ::
      groups[a][b].count.value >= 0
    ensures GridMin(groups) == 0
  {
    GridMinIsLowest(groups);
  }

  /** Extraction is deterministic: a calendar has exactly one extraction result. */
  lemma ExtractedIsUnique(groups: seq<seq<Cell>>, g1: Extraction, g2: Extraction)
    requires Extracted(groups, g1) && Extracted(groups, g2)
    ensures g1 == g2
  {
    forall a | 0 <= a < |groups| ensures g1.weeks[a] == g2.weeks[a] {
      assert g1.weeks[a].days == g2.weeks[a].days;
    }
  }

  /** A group whose counts all respect `h` extends a calendar prefix for which `h` is the highest so far. */
  lemma HighestExtends(prefix: seq<seq<Cell>>, row: seq<Cell>, h: int)
    requires 0 <= h && GridAtMost(prefix, h) && RowAtMost(row, h)
    requires h == 0 || GridHas(prefix, h) || RowHas(row, h)
    ensures IsHighest(prefix + [row], h)
  {
    var grid := prefix + [row];
    assert grid[|prefix|] == row;
    forall a | 0 <= a < |prefix| ensures grid[a] == prefix[a] { }
    if h != 0 && !GridHas(prefix, h) {
      assert RowHas(grid[|prefix|], h);
    }
  }

  /** A group whose counts all respect `l` extends a calendar prefix for which `l` is the lowest so far. */
  lemma LowestExtends(prefix: seq<seq<Cell>>, row: seq<Cell>, l: int)
    requires l <= 0 && GridAtLeast(prefix, l) && RowAtLeast(row, l)
    requires l == 0 || GridHas(prefix, l) || RowHas(row, l)
    ensures IsLowest(prefix + [row], l)
  {
    var grid := prefix + [row];
    assert grid[|prefix|] == row;
    forall a | 0 <= a < |prefix| ensures grid[a] == prefix[a] { }
    if l != 0 && !GridHas(prefix, l) {
      assert RowHas(grid[|prefix|], l);
    }
  }

  /**
   * The single pass of `page.evaluate`: the outer loop maps the groups, the inner
   * loop the cells of one group, and each cell may raise `highest` or lower `lowest`.
   */
  method Extract(groups: seq<seq<Cell>>) returns (g: Extraction)
    ensures Copies(groups, g.weeks)
    ensures IsHighest(groups, g.highest) && IsLowest(groups, g.lowest)
    ensures Extracted(groups, g)
  {
    var highest, lowest := 0, 0;
    var weeks: seq<Week> := [];
    for i := 0 to |groups|
      invariant Copies(groups[..i], weeks)
      invariant IsHighest(groups[..i], highest)
      invariant IsLowest(groups[..i], lowest)
    {
      var row := groups[i];
      var days: seq<map<string, string>> := [];
      for j := 0 to |row|
        invariant |days| == j
        invariant forall b | 0 <= b < j :: days[b] == row[b].dataset
        invariant 0 <= highest && GridAtMost(groups[..i], highest) && RowAtMost(row[..j], highest)
        invariant highest == 0 || GridHas(groups[..i], highest) || RowHas(row[..j], highest)
        invariant lowest <= 0 && GridAtLeast(groups[..i], lowest) && RowAtLeast(row[..j], lowest)
        invariant lowest == 0 || GridHas(groups[..i], lowest) || RowHas(row[..j], lowest)
      {
        var count := row[j].count;
        if count.Some? && count.value > highest {
          highest := count.value;
        }
        if count.Some? && count.value < lowest {
          lowest := count.value;
        }
        days := days + [row[j].dataset];
        assert row[..j + 1] == row[..j] + [row[j]];
      }
      assert row[..|row|] == row;
      HighestExtends(groups[..i], row, highest);
      LowestExtends(groups[..i], row, lowest);
      weeks := weeks + [Week(days)];
      assert groups[..i + 1] == groups[..i] + [row];
    }
    assert groups[..|groups|] == groups;
    g := Extraction(weeks, highest, lowest);
    HighestIsMax(groups, highest);
    LowestIsMin(groups, lowest);
  }
}
