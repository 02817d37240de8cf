# Drummer animation: contribution-grid layout and timing

This project models the core of a generator that turns a GitHub contribution
calendar into an animated SVG. A drummer GIF sits on top, and below it the
contribution cells explode one after another. The model covers four parts:

- **Grid builder** (`Contributions`): the weekly `contributionDays` records are
  copied into a grid of `{count, date}` days. Order and shape are kept.
- **Colour tiers** (`Palette`): a count is mapped to one of five fixed colours.
  A reference definition ("how many of the thresholds 1, 3, 6, 9 the count
  reaches") is proved to agree with the generator's chain of comparisons for
  every count >= 0. A negative count gets the tier-1 colour although it
  reaches no threshold (`Palette.NegativeCountColor`).
- **Layout and schedule** (`Layout`): the grid is walked week by week, then day
  by day. Every day becomes a cell at `x = w*14`, `y = d*14`. The cells with a
  positive count form the explosion schedule, in the same order. Each schedule
  entry carries its position in `all_cells`, so the renderer can match an
  entry to its cell without an identity lookup; the rank is the entry's index
  in the schedule. The k-th scheduled cell gets delay `k*0.15s`. All
  scheduled cells share the duration `len(schedule)*0.15s`. One rect is emitted
  per cell, animated exactly when the count is positive.
- **Document** (`Document`): the document size comes from the number of weeks.
  The drummer group has three staggered impact rings. It then holds either the
  inlined GIF or, when the encoded payload is empty, a placeholder rectangle
  and glyph. The parts are emitted in a fixed order.

Times are integer hundredths of a second: the cell delay is 15 and the ring
stagger is 5. Positions are integers. The drummer offset `30 + (14W - 124)/2`
is always an integer, so it is modelled exactly.

Every operation is a total function or method of its inputs, so rendering the
same grid and payload twice gives the same parts.

Two behaviours of the code are kept as written:

- The code does not check that a week has seven days. It lays out whatever
  days are present, so the model accepts weeks of any length. Seven-day weeks
  appear only as a `requires` of the lemmas that depend on them
  (`Layout.SevenDayLayout`, and `Document.CellsInsideDocument` with at most
  seven).
- Counts are not checked for sign. A negative count is static (it is not
  `> 0`) and gets the tier-1 colour `#0e4429`, because it fails `count == 0`
  and passes `count < 3`.

## Model

| member | source | states |
|---|---|---|
| `Contributions.ProcessWeeks` | scripts/generate_drummer_animation.py:75-86 | Keeps the number of weeks, the number of days of each week and their order. Copies `contributionCount` into `count` and `date` into `date`. Going back with `Raw` gives the input records. |
| `Palette.ContributionColor` | scripts/generate_drummer_animation.py:130-141 | The colour is always one of the five tier colours. |
| `Palette.TierRanges` | scripts/generate_drummer_animation.py:130-141 | For counts >= 0, each tier holds exactly its range: 0, 1-2, 3-5, 6-8, 9 and above (both directions). |
| `Palette.ColorIsTierColor` | scripts/generate_drummer_animation.py:130-141 | For every count >= 0, the generator's colour is the colour of the reference tier (thresholds reached). |
| `Palette.TierMonotone` | scripts/generate_drummer_animation.py:130-141 | The tier never decreases as the count grows. |
| `Palette.SameColorIffSameTier` | scripts/generate_drummer_animation.py:130-141 | Two counts >= 0 share a colour exactly when they share a tier, because the five colours are distinct. |
| `Palette.NegativeCountColor` | scripts/generate_drummer_animation.py:132-135 | A negative count reaches no threshold, yet the comparison chain gives it the tier-1 colour. |
| `Palette.TierBoundaries` | scripts/generate_drummer_animation.py:130-141 | 2 is tier 1, 3 is tier 2, 8 is tier 3 and 9 is tier 4, with the matching colours. |
| `Layout.CellsLength` | scripts/generate_drummer_animation.py:321-333 | `all_cells` has one entry per day of the grid. |
| `Layout.CellAt` | scripts/generate_drummer_animation.py:321-333 | Day `d` of week `w` sits at position `days before week w + d` of `all_cells`, with `x = w*14`, `y = d*14`, and its count and colour. |
| `Layout.SevenDayLayout` | scripts/generate_drummer_animation.py:321-333 | With 7-day weeks there are exactly `7*W` cells, and cell `i` is day `i % 7` of week `i / 7`: week-major, day-minor. |
| `Layout.CellsWithin` | scripts/generate_drummer_animation.py:323-324 | With at most `days` days per week, every cell has `0 <= x <= (W-1)*14` and `0 <= y <= (days-1)*14`. |
| `Layout.Schedule` | scripts/generate_drummer_animation.py:335-336 | The schedule's length is the number of positive cells. Every entry points at a positive cell of `all_cells` at its recorded position, and positions strictly increase. |
| `Layout.ScheduleIsFilter` | scripts/generate_drummer_animation.py:335-336 | Every positive cell of `all_cells` appears in the schedule at its own position, and only positive cells do. |
| `Layout.RankLookup` | scripts/generate_drummer_animation.py:343-356 | The rank lookup of a positive cell always succeeds. The cell stands in the schedule at index "number of positive cells before it". |
| `Layout.ScheduleRank` | scripts/generate_drummer_animation.py:343-357 | Conversely, the k-th schedule entry has exactly k positive cells before it. |
| `Layout.KthScheduledTiming` | scripts/generate_drummer_animation.py:339-369 | The rect of the k-th scheduled cell explodes with delay `k*15` and duration `len(schedule)*15` (hundredths of a second). |
| `Layout.DelayBelowDuration` | scripts/generate_drummer_animation.py:339-369 | Every animated rect's delay is non-negative and strictly below the shared duration. |
| `Layout.DelaysIncrease` | scripts/generate_drummer_animation.py:343-357 | Delays strictly increase along `all_cells` order. |
| `Layout.NoActivityIsStatic` | scripts/generate_drummer_animation.py:340-382 | Without a positive count the schedule is empty and every rect is static. |
| `Layout.RenderShape` | scripts/generate_drummer_animation.py:346-382 | One rect per cell, in `all_cells` order, at the cell's position and in its colour. It is animated exactly when the count is positive, so count-0 cells carry no animation. |
| `Layout.CollectCells` | scripts/generate_drummer_animation.py:318-336 | The first pass yields exactly `all_cells` and its positive-count schedule. |
| `Layout.RenderCells` | scripts/generate_drummer_animation.py:339-382 | The second pass, walking the schedule in step with the cells, emits exactly the specified rects. |
| `Layout.ContributionGrid` | scripts/generate_drummer_animation.py:307-385 | The grid's rects are the specified rendering of the laid-out cells. |
| `Layout.OneWeekExample` | scripts/generate_drummer_animation.py:321-382 | For the week 0,3,0,0,9,0,0: cells 1 and 4 explode at 0 and 0.15s for 0.30s, in tier-2 and tier-4 colours. The other five are static tier-0. |
| `Document.DrummerXValue` | scripts/generate_drummer_animation.py:247-252 | The drummer offset `30 + (W*14 - 4 - 120)/2` is the integer `7*W - 32`: the halving is exact. |
| `Document.DrummerCentred` | scripts/generate_drummer_animation.py:247-252 | The drummer's centre and the grid's centre coincide horizontally. |
| `Document.DrummerPlacement` | scripts/generate_drummer_animation.py:147-150 | The drummer's right edge is inside the document width, and it sits above the grid. Its left edge is inside exactly when there are at least 5 weeks. |
| `Document.CellsInsideDocument` | scripts/generate_drummer_animation.py:147-150 | With at most 7 days per week, every rect, once translated by (30, 160), lies inside `max(120, W*14) + 60` by `120 + 7*14 + 80`. |
| `Document.DrummerGif` | scripts/generate_drummer_animation.py:243-305 | Three rings with delays 0, 0.05s and 0.10s come first. Then comes the image when the payload is non-empty, and the placeholder rect and glyph otherwise. There are exactly 3 rings either way. |
| `Document.GenerateSvg` | scripts/generate_drummer_animation.py:143-173 | Six parts in order, with a header of the computed width and height. The drummer part sits at `(7*W - 32, 20)` and holds rings with delays 0, 0.05s and 0.10s, then the image, or the placeholder rect and glyph when the payload is empty; it holds 3 rings and the image exactly when the payload is non-empty. The grid part holds the specified rects. Rendering always completes. |

## Left out

- `fetch_contributions` (the GraphQL request, token header, timeout and error fallback) is network I/O.
- `_generate_mock_data` depends on an unseeded random generator.
- `_encode_image_to_base64` reads a file. Its result is the `payload` parameter, which is empty when the file cannot be read.
- `main` and the pip-install fallback use environment variables, filesystem checks, `sys.exit` and file writes.
- The text of the output is not modelled. That covers the f-string markup, the `'\n'.join`, and the Python float rendering of delays, durations, ring centres and the drummer offset (e.g. `0.44999999999999996`). Parts are values carrying the numbers that go into them.
- `_generate_defs_and_styles` is constant text, modelled as the single part `Defs`. `_generate_impact_effects` returns the empty string, modelled as `ImpactEffects`.
- The `<g>` wrapper of `_generate_contribution_grid` (translate by 30 and 160) is the `GridGroup` part built in `Document.GenerateSvg`. `Layout.ContributionGrid` returns only its rects.
- `DrummerAnimationGenerator` is not a class here. Its fields never change after construction, so the grid is a parameter and the sizes are constants.
- The branch where a positive cell is missing from the identity lookup, which emits nothing, is not modelled as code. `Layout.RankLookup` proves that the lookup always succeeds.
