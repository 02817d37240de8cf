/** The layout and timing engine: every day of the grid becomes a positioned,
    coloured cell; the cells with a positive count form the explosion
    schedule, in week-major, day-minor order; every cell is then rendered as
    one rect, animated when it is on the schedule and static otherwise.
    Times are integer hundredths of a second.
 */
module Layout {
  import opened Contributions
  import Palette

  const CellSize: int := 10
  const CellGap: int := 4
  /** Distance between the origins of neighbouring cells. */
  const Pitch: int := 14
  /** Hundredths of a second between two explosions (0.15s). */
  const CellDelay: int := 15

  /** One entry of `all_cells`: position, colour and count. */
  datatype Cell = Cell(x: int, y: int, color: string, count: int)

  /** One entry of `cells_with_contribution`, carrying its position in
      `all_cells` so that no identity lookup is needed to find it again. */
  datatype Slot = Slot(at: nat, cell: Cell)

  /** The animation attributes of a rect: none, or the `cell` class with a
      delay and a duration. */
  datatype Animation = Static | Explode(delay: int, duration: int)

  /** One emitted `<rect>`. */
  datatype Rect = Rect(x: int, y: int, fill: string, animation: Animation)

  /** The cell for day `d` of week `w`. */
  function MakeCell(w: nat, d: nat, count: int): Cell
  {
    Cell(w * Pitch, d * Pitch, Palette.ContributionColor(count), count)
  }

  /** The cells of week `w`, top to bottom. */
  function WeekCells(w: nat, week: seq<Day>): seq<Cell>
  {
    seq(|week|, d requires 0 <= d < |week| => MakeCell(w, d, week[d].count))
  }

  /** `all_cells`: week after week, each week day after day. */
  function Cells(grid: Grid): seq<Cell>
  {
    if grid == [] then []
    else Cells(grid[..|grid| - 1]) + WeekCells(|grid| - 1, grid[|grid| - 1])
  }

  /** How many days the weeks before week `w` hold. */
  function DaysBefore(grid: Grid, w: nat): nat
    requires w <= |grid|
  {
    if w == 0 then 0 else DaysBefore(grid, w - 1) + |grid[w - 1]|
  }

  /** How many cells have a positive count. */
  function CountPositive(cells: seq<Cell>): (n: nat)
    ensures n <= |cells|
  {
    if cells == [] then 0
    else CountPositive(cells[..|cells| - 1]) + (if cells[|cells| - 1].count > 0 then 1 else 0)
  }

  /** The explosion schedule: the cells with a positive count, in the order
      of `cells`, each with its position. */
  function Schedule(cells: seq<Cell>): (s: seq<Slot>)
    ensures |s| == CountPositive(cells)
    ensures forall k :: 0 <= k < |s| ==>
              s[k].at < |cells| && cells[s[k].at] == s[k].cell && s[k].cell.count > 0
    ensures forall j, k :: 0 <= j < k < |s| ==> s[j].at < s[k].at
  {
    if cells == [] then []
    else
      var n := |cells| - 1;
      var s' := Schedule(cells[..n]);
      assert forall k :: 0 <= k < |s'| ==> s'[k].at < n && cells[s'[k].at] == cells[..n][s'[k].at];
      s' + (if cells[n].count > 0 then [Slot(n, cells[n])] else [])
  }

  /** The rect the generator emits for cell `i`: its rank among the positive
      cells before it gives the delay, the number of positive cells the
      duration. */
  function RectFor(cells: seq<Cell>, i: nat): Rect
    requires i < |cells|
  {
    var c := cells[i];
    Rect(c.x, c.y, c.color,
         if c.count > 0 then Explode(CellDelay * CountPositive(cells[..i]), CellDelay * CountPositive(cells))
         else Static)
  }

  /** The rects emitted for `cells`, one per cell and in the same order. */
  function Render(cells: seq<Cell>): seq<Rect>
  {
    seq(|cells|, i requires 0 <= i < |cells| => RectFor(cells, i))
  }

  // ---------------------------------------------------------------------
  // Layout of all_cells
  // ---------------------------------------------------------------------

  lemma WeekCellsStep(w: nat, week: seq<Day>, d: nat)
    requires d < |week|
    ensures WeekCells(w, week[..d + 1]) == WeekCells(w, week[..d]) + [MakeCell(w, d, week[d].count)]
  {
  }

  lemma CellsStep(grid: Grid, w: nat)
    requires w < |grid|
    ensures Cells(grid[..w + 1]) == Cells(grid[..w]) + WeekCells(w, grid[w])
  {
    assert grid[..w + 1][..w] == grid[..w];
  }

  /** There are as many cells as days. */
  lemma {:induction false} CellsLength(grid: Grid)
    ensures |Cells(grid)| == DaysBefore(grid, |grid|)
  {
    if grid != [] {
      var n := |grid| - 1;
      CellsLength(grid[..n]);
      DaysBeforePrefixAt(grid, n, n);
    }
  }

  /** Day `d` of week `w` has its cell at position `DaysBefore(grid, w) + d`,
      with `x = w * 14` and `y = d * 14` and the colour of its count. */
  lemma {:induction false} CellAt(grid: Grid, w: nat, d: nat)
    requires w < |grid| && d < |grid[w]|
    ensures DaysBefore(grid, w) + d < |Cells(grid)|
    ensures Cells(grid)[DaysBefore(grid, w) + d] == MakeCell(w, d, grid[w][d].count)
  {
    var n := |grid| - 1;
    var g := grid[..n];
    CellsLength(g);
    DaysBeforePrefixAt(grid, n, n);
    assert Cells(grid) == Cells(g) + WeekCells(n, grid[n]);
    if w < n {
      assert g[w] == grid[w];
      CellAt(g, w, d);
      DaysBeforePrefixAt(grid, n, w);
      DaysBeforeGrows(grid, w + 1, n);
    }
  }

  lemma {:induction false} DaysBeforePrefixAt(grid: Grid, n: nat, w: nat)
    requires w <= n <= |grid|
    ensures DaysBefore(grid[..n], w) == DaysBefore(grid, w)
  {
    if w > 0 {
      DaysBeforePrefixAt(grid, n, w - 1);
    }
  }

  lemma {:induction false} DaysBeforeGrows(grid: Grid, v: nat, w: nat)
    requires v <= w <= |grid|
    ensures DaysBefore(grid, v) <= DaysBefore(grid, w)
  {
    if v < w {
      DaysBeforeGrows(grid, v, w - 1);
    }
  }

  /** With seven days in every week, cell `i` is day `i % 7` of week `i / 7`:
      the cells are exactly the 7*W pairs, in week-major, day-minor order. */
  lemma SevenDayLayout(grid: Grid)
    requires forall w :: 0 <= w < |grid| ==> |grid[w]| == 7
    ensures |Cells(grid)| == 7 * |grid|
    ensures forall i :: 0 <= i < |Cells(grid)| ==>
              Cells(grid)[i] == MakeCell(i / 7, i % 7, grid[i / 7][i % 7].count)
  {
    CellsLength(grid);
    SevenDaysBefore(grid, |grid|);
    forall i | 0 <= i < |Cells(grid)|
      ensures Cells(grid)[i] == MakeCell(i / 7, i % 7, grid[i / 7][i % 7].count)
    {
      var w, d := i / 7, i % 7;
      SevenDaysBefore(grid, w);
      CellAt(grid, w, d);
    }
  }

  lemma {:induction false} SevenDaysBefore(grid: Grid, w: nat)
    requires forall v :: 0 <= v < |grid| ==> |grid[v]| == 7
    requires w <= |grid|
    ensures DaysBefore(grid, w) == 7 * w
  {
    if w > 0 {
      SevenDaysBefore(grid, w - 1);
    }
  }

  // ---------------------------------------------------------------------
  // The schedule and its ranks
  // ---------------------------------------------------------------------

  lemma ScheduleStep(cells: seq<Cell>, i: nat)
    requires i < |cells|
    ensures Schedule(cells[..i + 1]) ==
            Schedule(cells[..i]) + (if cells[i].count > 0 then [Slot(i, cells[i])] else [])
  {
    assert cells[..i + 1][..i] == cells[..i];
  }

  lemma CountStep(cells: seq<Cell>, i: nat)
    requires i < |cells|
    ensures CountPositive(cells[..i + 1]) ==
            CountPositive(cells[..i]) + (if cells[i].count > 0 then 1 else 0)
  {
    assert cells[..i + 1][..i] == cells[..i];
  }

  /** Appending a cell appends its slot to the schedule when its count is positive. */
  lemma ScheduleAppend(cells: seq<Cell>, c: Cell)
    ensures Schedule(cells + [c]) ==
            Schedule(cells) + (if c.count > 0 then [Slot(|cells|, c)] else [])
  {
    assert (cells + [c])[..|cells|] == cells;
  }

  /** The schedule of a prefix of the cells is a prefix of the schedule. */
  lemma {:induction false} SchedulePrefix(cells: seq<Cell>, m: nat)
    requires m <= |cells|
    ensures Schedule(cells[..m]) <= Schedule(cells)
  {
    if m < |cells| {
      var n := |cells| - 1;
      SchedulePrefix(cells[..n], m);
      assert cells[..n][..m] == cells[..m];
    } else {
      assert cells[..m] == cells;
    }
  }

  /** The lookup of a positive cell always succeeds: the cell at position `i`
      stands in the schedule at its rank, the number of positive cells before
      it. */
  lemma RankLookup(cells: seq<Cell>, i: nat)
    requires i < |cells| && cells[i].count > 0
    ensures CountPositive(cells[..i]) < |Schedule(cells)|
    ensures Schedule(cells)[CountPositive(cells[..i])] == Slot(i, cells[i])
  {
    ScheduleStep(cells, i);
    CountStep(cells, i);
    SchedulePrefix(cells, i + 1);
  }

  /** Conversely, the k-th entry of the schedule has rank k. */
  lemma {:induction false} ScheduleRank(cells: seq<Cell>, k: nat)
    requires k < |Schedule(cells)|
    ensures CountPositive(cells[..Schedule(cells)[k].at]) == k
  {
    var n := |cells| - 1;
    var s := Schedule(cells[..n]);
    if k < |s| {
      ScheduleRank(cells[..n], k);
      assert cells[..n][..s[k].at] == cells[..s[k].at];
    } else {
      assert cells[..n] == cells[..Schedule(cells)[k].at];
    }
  }

  /** Exactly the positive cells are scheduled, each once, in their order. */
  lemma ScheduleIsFilter(cells: seq<Cell>)
    ensures |Schedule(cells)| == CountPositive(cells)
    ensures forall k :: 0 <= k < |Schedule(cells)| ==> Schedule(cells)[k].cell.count > 0
    ensures forall i :: 0 <= i < |cells| && cells[i].count > 0 ==>
              exists k :: 0 <= k < |Schedule(cells)| && Schedule(cells)[k] == Slot(i, cells[i])
  {
    forall i | 0 <= i < |cells| && cells[i].count > 0
      ensures exists k :: 0 <= k < |Schedule(cells)| && Schedule(cells)[k] == Slot(i, cells[i])
    {
      RankLookup(cells, i);
    }
  }

  /** A positive cell has more positive cells at and after it than none. */
  lemma {:induction false} RankGrows(cells: seq<Cell>, i: nat, j: nat)
    requires i < j <= |cells| && cells[i].count > 0
    ensures CountPositive(cells[..i]) < CountPositive(cells[..j])
  {
    CountStep(cells, j - 1);
    if j - 1 > i {
      RankGrows(cells, i, j - 1);
    }
  }

  // ---------------------------------------------------------------------
  // Timing of the rendered rects
  // ---------------------------------------------------------------------

  /** One rect per cell, at the cell's position and in the cell's colour;
      a rect is animated exactly when its cell has a positive count. */
  lemma RenderShape(cells: seq<Cell>)
    ensures |Render(cells)| == |cells|
    ensures forall i :: 0 <= i < |cells| ==>
              Render(cells)[i].x == cells[i].x && Render(cells)[i].y == cells[i].y &&
              Render(cells)[i].fill == cells[i].color &&
              (Render(cells)[i].animation.Explode? <==> cells[i].count > 0)
  {
  }

  /** The k-th scheduled cell explodes after k * 0.15s, and every scheduled
      cell lasts as long as the whole schedule: its length times 0.15s. */
  lemma KthScheduledTiming(cells: seq<Cell>, k: nat)
    requires k < |Schedule(cells)|
    ensures Schedule(cells)[k].at < |Render(cells)|
    ensures Render(cells)[Schedule(cells)[k].at].animation ==
            Explode(k * CellDelay, |Schedule(cells)| * CellDelay)
  {
    ScheduleRank(cells, k);
  }

  /** Every delay is strictly below the shared duration. */
  lemma DelayBelowDuration(cells: seq<Cell>, i: nat)
    requires i < |cells| && cells[i].count > 0
    ensures 0 <= Render(cells)[i].animation.delay < Render(cells)[i].animation.duration
  {
    RankGrows(cells, i, |cells|);
    assert cells[..|cells|] == cells;
  }

  /** Delays strictly increase along the cells. */
  lemma DelaysIncrease(cells: seq<Cell>, i: nat, j: nat)
    requires i < j < |cells| && cells[i].count > 0 && cells[j].count > 0
    ensures Render(cells)[i].animation.delay < Render(cells)[j].animation.delay
  {
    RankGrows(cells, i, j);
  }

  lemma {:induction false} NoPositiveCount(cells: seq<Cell>)
    requires forall i :: 0 <= i < |cells| ==> cells[i].count <= 0
    ensures CountPositive(cells) == 0
  {
    if cells != [] {
      NoPositiveCount(cells[..|cells| - 1]);
    }
  }

  /** Without a positive count the grid is static: nothing is scheduled and
      no rect is animated. */
  lemma NoActivityIsStatic(cells: seq<Cell>)
    requires forall i :: 0 <= i < |cells| ==> cells[i].count <= 0
    ensures Schedule(cells) == []
    ensures forall i :: 0 <= i < |cells| ==> Render(cells)[i].animation == Static
  {
    NoPositiveCount(cells);
  }

  // ---------------------------------------------------------------------
  // The generator's two passes
  // ---------------------------------------------------------------------

  /** The first pass: walks the grid week by week, day by day, collecting
      every cell and, separately, the positive ones. */
  method CollectCells(grid: Grid) returns (allCells: seq<Cell>, withContribution: seq<Slot>)
    ensures allCells == Cells(grid)
    ensures withContribution == Schedule(allCells)
  {
    allCells, withContribution := [], [];
    var w := 0;
    while w < |grid|
      invariant 0 <= w <= |grid|
      invariant allCells == Cells(grid[..w])
      invariant withContribution == Schedule(allCells)
    {
      var week := grid[w];
      ghost var before := allCells;
      var d := 0;
      while d < |week|
        invariant 0 <= d <= |week|
        invariant allCells == before + WeekCells(w, week[..d])
        invariant withContribution == Schedule(allCells)
      {
        var x := w * Pitch;
        var y := d * Pitch;
        var color := Palette.ContributionColor(week[d].count);
        var cell := Cell(x, y, color, week[d].count);
        var n := |allCells|;
        ScheduleAppend(allCells, cell);
        WeekCellsStep(w, week, d);
        allCells := allCells + [cell];
        if week[d].count > 0 {
          withContribution := withContribution + [Slot(n, cell)];
        }
        d := d + 1;
      }
      assert week[..d] == week;
      CellsStep(grid, w);
      w := w + 1;
    }
    assert grid[..w] == grid;
  }

  /** The second pass: one rect per cell. A positive cell finds its rank in
      the schedule (the pointer `j` walks the schedule in step with the
      cells) and is animated with that rank's delay; any other cell is
      static. */
  method RenderCells(allCells: seq<Cell>, withContribution: seq<Slot>) returns (rects: seq<Rect>)
    requires withContribution == Schedule(allCells)
    ensures rects == Render(allCells)
  {
    var totalDuration := |withContribution| * CellDelay;
    rects := [];
    var i, j := 0, 0;
    while i < |allCells|
      invariant 0 <= i <= |allCells|
      invariant j == CountPositive(allCells[..i])
      invariant rects == Render(allCells)[..i]
    {
      var cell := allCells[i];
      if cell.count > 0 {
        RankLookup(allCells, i);
        assert withContribution[j].at == i;
        var explosionIndex := j;
        var delay := explosionIndex * CellDelay;
        rects := rects + [Rect(cell.x, cell.y, cell.color, Explode(delay, totalDuration))];
        j := j + 1;
      } else {
        rects := rects + [Rect(cell.x, cell.y, cell.color, Static)];
      }
      CountStep(allCells, i);
      assert Render(allCells)[..i + 1] == Render(allCells)[..i] + [Render(allCells)[i]];
      i := i + 1;
    }
    assert Render(allCells)[..i] == Render(allCells);
  }

  /** `_generate_contribution_grid` without its text: the rects of the grid. */
  method ContributionGrid(grid: Grid) returns (rects: seq<Rect>)
    ensures rects == Render(Cells(grid))
  {
    var allCells, withContribution := CollectCells(grid);
    rects := RenderCells(allCells, withContribution);
  }

  /** With at most `days` days in a week, every cell lies in the box spanned
      by the first and the last week's column and the first `days` rows. */
  lemma {:induction false} CellsWithin(grid: Grid, days: nat)
    requires forall w :: 0 <= w < |grid| ==> |grid[w]| <= days
    ensures forall i :: 0 <= i < |Cells(grid)| ==>
              0 <= Cells(grid)[i].x <= (|grid| - 1) * Pitch &&
              0 <= Cells(grid)[i].y <= (days - 1) * Pitch
  {
    if grid != [] {
      var n := |grid| - 1;
      var g := grid[..n];
      CellsWithin(g, days);
      assert Cells(grid) == Cells(g) + WeekCells(n, grid[n]);
      forall i | |Cells(g)| <= i < |Cells(grid)|
        ensures Cells(grid)[i].x == n * Pitch
        ensures 0 <= Cells(grid)[i].y <= (days - 1) * Pitch
      {
        var d := i - |Cells(g)|;
        assert Cells(grid)[i] == MakeCell(n, d, grid[n][d].count);
      }
    }
  }

  /** The example of a single week with counts 0, 3, 0, 0, 9, 0, 0: two
      explosions, at 0s and 0.15s, both lasting 0.30s. */
  lemma OneWeekExample(week: seq<Day>)
    requires |week| == 7
    requires week[0].count == 0 && week[1].count == 3 && week[2].count == 0 && week[3].count == 0
    requires week[4].count == 9 && week[5].count == 0 && week[6].count == 0
    ensures |Render(Cells([week]))| == 7
    ensures Render(Cells([week]))[1] == Rect(0, 14, "#006d32", Explode(0, 30))
    ensures Render(Cells([week]))[4] == Rect(0, 56, "#39d353", Explode(15, 30))
    ensures forall d :: 0 <= d < 7 && d != 1 && d != 4 ==>
              Render(Cells([week]))[d] == Rect(0, d * 14, "#161b22", Static)
  {
    var grid := [week];
    var cells := Cells(grid);
    assert grid[..|grid| - 1] == [];
    assert Cells(grid[..|grid| - 1]) == [];
    assert cells == WeekCells(0, week);
    assert cells[..7] == cells;
    assert cells[..0] == [];
    CountStep(cells, 0); CountStep(cells, 1); CountStep(cells, 2);
    CountStep(cells, 3); CountStep(cells, 4); CountStep(cells, 5);
    CountStep(cells, 6);
  }
}
