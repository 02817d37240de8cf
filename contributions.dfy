/** The grid builder: the weekly records of a contribution calendar, as the
    GraphQL response delivers them, turned into a grid of (count, date) days.
 */
module Contributions {

  /** One `contributionDays` entry of the response; only the two fields the
      builder reads are kept. The count is not checked for sign. */
  datatype RawDay = RawDay(contributionCount: int, date: string)

  /** One `weeks` entry of the response. */
  datatype RawWeek = RawWeek(contributionDays: seq<RawDay>)

  /** A normalised day of the grid: the `{count, date}` record. */
  datatype Day = Day(count: int, date: string)

  /** A grid is a sequence of weeks, each a sequence of days. Nothing forces a
      week to hold seven days: the builder copies whatever is present. */
  type Grid = seq<seq<Day>>

  /** The inverse of normalisation: the raw records a grid was built from. */
  function Raw(grid: Grid): (weeks: seq<RawWeek>)
  {
    seq(|grid|, w requires 0 <= w < |grid| =>
      RawWeek(seq(|grid[w]|, d requires 0 <= d < |grid[w]| =>
        RawDay(grid[w][d].count, grid[w][d].date))))
  }

  /** Copies every day of every week into a `Day`, keeping the order of weeks
      and of the days inside each week. */
  method ProcessWeeks(weeks: seq<RawWeek>) returns (grid: Grid)
    ensures |grid| == |weeks|
    ensures forall w :: 0 <= w < |weeks| ==> |grid[w]| == |weeks[w].contributionDays|
    ensures forall w, d :: 0 <= w < |weeks| && 0 <= d < |weeks[w].contributionDays| ==>
              grid[w][d] == Day(weeks[w].contributionDays[d].contributionCount,
                                weeks[w].contributionDays[d].date)
    ensures Raw(grid) == weeks
  {
    grid := [];
    var w := 0;
    while w < |weeks|
      invariant 0 <= w <= |weeks|
      invariant |grid| == w
      invariant forall v :: 0 <= v < w ==> |grid[v]| == |weeks[v].contributionDays|
      invariant forall v, d :: 0 <= v < w && 0 <= d < |weeks[v].contributionDays| ==>
                  grid[v][d] == Day(weeks[v].contributionDays[d].contributionCount,
                                    weeks[v].contributionDays[d].date)
    {
      var days := weeks[w].contributionDays;
      var weekData: seq<Day> := [];
      var d := 0;
      while d < |days|
        invariant 0 <= d <= |days|
        invariant |weekData| == d
        invariant forall e :: 0 <= e < d ==>
                    weekData[e] == Day(days[e].contributionCount, days[e].date)
      {
        weekData := weekData + [Day(days[d].contributionCount, days[d].date)];
        d := d + 1;
      }
      grid := grid + [weekData];
      w := w + 1;
    }
    RawInverts(weeks, grid);
  }

  /** A grid that copies every raw record field for field gives back those
      records under `Raw`. */
  lemma RawInverts(weeks: seq<RawWeek>, grid: Grid)
    requires |grid| == |weeks|
    requires forall w :: 0 <= w < |weeks| ==> |grid[w]| == |weeks[w].contributionDays|
    requires forall w, d :: 0 <= w < |weeks| && 0 <= d < |weeks[w].contributionDays| ==>
               grid[w][d] == Day(weeks[w].contributionDays[d].contributionCount,
                                 weeks[w].contributionDays[d].date)
    ensures Raw(grid) == weeks
  {
    forall w | 0 <= w < |weeks|
      ensures Raw(grid)[w] == weeks[w]
    {
      assert Raw(grid)[w].contributionDays == weeks[w].contributionDays;
    }
  }
}
